# Verified model of the eBPF firewall

A Dafny model of an XDP packet filter and of the Go daemon that edits its maps while packets are
flowing. `dafny verify dfyconfig.toml` checks the whole project.

## What is modelled

- **Wire, Keys, Parser** - fixed-width integers, byte orders, the bytes of the map keys, the header
  parsers over a moving cursor, and frames as their inverse.
- **Prefixes** - the leading bits of an address: by the masks and shifts of a big-endian word, and octet by octet.
- **Policy** - the two rule tables as maps, the datapath's lookups in them (`LpmLookup`,
  `IpLookup`, `PortLookup`), `Decide`, and independent definitions of what they should return: the
  longest covering prefix, the (priority, specificity) winner of a scan of all rules, and
  "some rule of top priority drops".
- **Datapath** - the state of all maps, the atomic events that change it (a whole packet; one Put or
  Delete of the daemon), runs as event logs, the verdict of the packet program, and the refinement of
  a machine that has no presence flags.
- **Linearize** - a packet whose map reads are spread over a run: the rules it collects are those of an atomic
  packet, as long as at most one rule that it could match changes.
- **Decision** - its whole decision from nine reads: which atomic packet it looks like, and exactly when it
  looks like none.
- **Witnesses** - runs of whole daemon commands in which separate reads fit no single moment.
- **Conntrack** - the flow table over whole runs: closed form of the state, origin of every flow, replies,
  isolation of flows from each other.
- **Kernel** - the class `Maps`: the packet program and the daemon's single map operations in
  imperative form. `FirewallProg` handles a packet in one go; `SteppedVerdict` makes each of its map reads
  separately, with anything at all happening in between. Every operation of the daemon is preceded by any number
  of packets (and reaper deletions, or, for the reaper, any step of a command) and may fail; a failure of its own
  is counted as a fault, and contracts say what else can make a command fail. A ghost log records every event;
  `Valid()` says that the maps are what the log leaves, that at no point of the log did the
  presence flags hide a rule, and that stored prefixes carry no host bits.
- **Managers** - `MapManager`, `PortPolicyManager`, `ConntrackManager` and `Server.Handle` over `Maps`.
- **Reaping** - the cutoff arithmetic of `Reap` and the ticker that calls it.
- **Counters** - the three counters under any number of CPUs, one atomic add at a time, and a snapshot read
  while they run.
- **Checksum, Format, Options** - the smoke test's checksum, byte formatting, and the option parser.

Assumptions about code that is not in the repository: hash maps and the array map are finite maps; the
LPM trie returns the longest stored prefix covering an address; each single map Lookup, Put, Delete and
iterator step is atomic; an iterator yields entries still present, each at most once, and finishes
only when none is left, or fails. `net.ParseCIDR` masks host bits: a parsed network is a
`Managers.Network`. Texts enter as what the parsers make of them (`Managers.Value`). Server.mu appears as
the rule that between two steps of a command only packets and the reaper run. The flag word is modelled
by its two defined bits.

## Where the code differs from its documentation or from expectation

- bpf/maps.h:143-147 says that return traffic of an accepted connection keeps passing. Flows are keyed by
  the packet's own 5-tuple and never reversed (bpf/firewall.c:260-269), as the repository's README.md:113-116
  admits. `Conntrack.ReplyIsNotCovered` is a run in which the reply to an established flow is dropped, and
  `Conntrack.ReplyPassesIffOwnFlow` says exactly when an unmatched reply passes.
- A packet's decision as a whole is not linearizable, not even while a single command runs:
  `Witnesses.OvertakenExists` is a run in which a packet is dropped although at every moment of its reads an
  atomic packet passes. `Decision.TornVerdictIsAtomic` gives the exact condition. Two commands
  (`Witnesses.TwoCommandsTear`) or one clear command (`Witnesses.ClearTears`) can tear the rule lookups too.
- "Evicted within ~1.5x the configured timeout" (cmd/firewall/main.go:75-77) fails below two seconds;
  `Reaping.OneAndAHalfTimeouts` gives the exact range, and `Reaping.BoundIsReached` the worst case.
- `Reap` with an idle time the clock has not reached yet removes entries stamped 0 and nothing else
  (`Reaping.StaleMeaning`), not "entries idle for at least idle".
- Protocol 0 is not "any" (bpf/maps.h:115): the datapath only probes the packet's own protocol, so such a
  rule is considered for packets of protocol 0 alone (`Policy.ProtocolZeroIsNotAny`).
- "The first hit wins", "a matched DROP always wins" (ARCHITECTURE.md:75-83) and "a matched DROP can be
  overridden only by a higher-priority PASS" (bpf/firewall.c:33-35): `Datapath.DropCanLose` shows packets that
  pass a matching DROP, `Datapath.DropDecides` says exactly when a DROP rule decides, and
  `Datapath.PortDropLosesTo` what a port DROP can lose to.
- A block request without an action ignores its priority (control/server/server.go:178-193);
  `Managers.RequestedRule` follows the code.

## Model

| member | source | states |
|---|---|---|
| Wire.PortConversionsInverse | ebpf-firewall/control/ebpf/portpolicy.go:90-126 | wireToPort and portToWire undo each other, 0 is the only encoding of 0, and the stored bytes are the port in network order |
| Wire.WordBytesInverse | ebpf-firewall/control/ebpf/blocklist.go:34-39 | a little-endian word and its four bytes determine each other |
| Keys.PortKeyInverse | ebpf-firewall/control/ebpf/portpolicy.go:94-126 | building a key from a logical rule and reading it back are mutually inverse, so newPortKey is injective |
| Keys.KeyBytesInjective | ebpf-firewall/bpf/maps.h:128-133 | two keys with the same 12 bytes are the same key |
| Keys.LpmKeyHoldsWireBytes | ebpf-firewall/control/ebpf/blocklist.go:18-39 | the trie compares the address bytes in network order |
| Policy.LpmLookupIsLongest | ebpf-firewall/bpf/firewall.c:134-159 | the lookup returns the rule of the one longest covering prefix and misses exactly when no stored prefix covers |
| Policy.CoversIsSharedPrefix | ebpf-firewall/control/ebpf/blocklist.go:18-39 | a masked prefix of 8n + r bits covers an address exactly when their first n octets agree and so do the r high bits of the next |
| Policy.NormalHasNoHostBits | ebpf-firewall/control/rules/parser.go:43-55 | a stored prefix is masked exactly when no bit of its octets is set after the prefix |
| Policy.RemovalKeepsOtherCovers | ebpf-firewall/control/ebpf/blocklist.go:110-124 | after removing a prefix an address stays matched exactly when another stored prefix covers it |
| Policy.PortLookupIsWinner | ebpf-firewall/bpf/firewall.c:161-217 | four probes return the strict (priority, specificity) maximum of all matching stored rules, and no match exactly when none matches, coinciding probe keys included |
| Policy.PortLookupIsScan | ebpf-firewall/bpf/firewall.c:161-217 | the four probes agree with one pass over the whole table in any order |
| Policy.ProtocolZeroIsNotAny | ebpf-firewall/bpf/firewall.c:184-208 | a protocol-0 rule changes no other protocol's match, and wins for packets of protocol 0 when it outprioritises the other rules that match |
| Policy.DecideIsTopPriority | ebpf-firewall/bpf/firewall.c:230-255 | the decision is DROP exactly when some matched rule of top priority drops; without matches the default decides |
| Datapath.SafeFlagsInvisible | ebpf-firewall/bpf/maps.h:86-99 | while no flag hides a rule, gated and ungated lookups agree |
| Datapath.ClearingNeedsEmptyTable | ebpf-firewall/control/ebpf/presence.go:35-46 | clearing a bit keeps the flags safe exactly when the table behind it is empty |
| Datapath.GatingRefinesAlwaysLookup | ebpf-firewall/bpf/firewall.c:390-406 | over every run with safe flags, the gated firewall refines the machine that always looks up and knows no flags: same tables, flows, counters and verdicts |
| Datapath.LostUpdateWithoutMutex | ebpf-firewall/control/ebpf/presence.go:24-33 | without the mutex two block commands lose a bit and a packet passes a DROP rule (concrete run) |
| Datapath.VerdictIsDeclarative | ebpf-firewall/bpf/firewall.c:367-443 | in every presence-safe state the program passes exactly the packets that the declarative policy passes |
| Datapath.DropDecides | ebpf-firewall/bpf/firewall.c:219-255 | a packet that matches any rule is dropped exactly when a selected DROP prefix has no higher matching port rule above it, or a winning port DROP no higher selected prefix |
| Datapath.PortDropLosesTo | ebpf-firewall/bpf/firewall.c:33-36 | a packet that matches a DROP port rule passes only by a PASS that outranks it among the port rules, or by a higher-priority PASS prefix |
| Datapath.DropCanLose | ebpf-firewall/bpf/firewall.c:16-36 | packets pass a matching DROP: by a higher PASS of the other table, an equal but more specific port PASS, a longer PASS prefix of any priority |
| Datapath.ConntrackOnlyAdmits | ebpf-firewall/bpf/firewall.c:412-421 | the flow table can only turn the DROP of an unmatched TCP packet under default-deny into PASS |
| Datapath.AcceptedIsRecorded | ebpf-firewall/bpf/firewall.c:432-434 | every TCP packet that passes under default-deny, matched or not, refreshes its own flow's entry or makes one while there is room: CLOSED on FIN or RST, else by the transitions of ct_update; nothing else changes a flow table |
| Datapath.FlowTableIsBounded | ebpf-firewall/bpf/maps.h:185-190 | after every run at most 65536 flows are tracked |
| Datapath.CountersCountVerdicts | ebpf-firewall/bpf/firewall.c:376-442 | after every run drop and pass count exactly the packets with that verdict and their bytes, and total counts both, modulo 2^64 |
| Linearize.TornIpIsAtomic | ebpf-firewall/bpf/firewall.c:140-159 | a rule change between the source and destination lookup is seen fully or not at all |
| Linearize.TornPortIsAtomic | ebpf-firewall/bpf/firewall.c:186-208 | a rule change between any two probes is seen fully or not at all |
| Linearize.LookupsLinearize | ebpf-firewall/bpf/firewall.c:390-406 | while at most one rule changes that the packet could match, the pair of rules collected by separate reads is the pair of an atomic packet before or after |
| Linearize.ClearKeepsIpAtomic | ebpf-firewall/control/ebpf/blocklist.go:211-228 | while IP rules are only removed, however many, the collected IP rule is that of an atomic packet at some moment of the reads |
| Decision.TornVerdictIsAtomic | ebpf-firewall/bpf/firewall.c:390-421 | while at most one change of the policy or of a rule that the packet could match takes effect, the verdict from nine separate reads is that of an atomic packet at some moment of the reads, exactly unless the packet was overtaken: it saw no rule, the command lets it pass, and its established flow ended before its flow lookup |
| Decision.OvertakenFlowEnds | ebpf-firewall/bpf/firewall.c:412-417 | an overtaken packet's flow was deleted, or closed by a FIN or RST, between the command and the flow lookup |
| Decision.UnendedFlowIsAtomic | ebpf-firewall/bpf/firewall.c:412-417 | so a packet whose flow does not end in that span gets the verdict of an atomic packet |
| Witnesses.OvertakenExists | ebpf-firewall/bpf/firewall.c:412-417 | concrete run of one block command: a packet is dropped although at every moment of its reads an atomic packet passes |
| Witnesses.TwoCommandsTear | ebpf-firewall/bpf/firewall.c:203-206 | concrete run of two block commands: a packet is dropped although at every moment it would pass |
| Witnesses.ClearTears | ebpf-firewall/control/server/server.go:243-249 | concrete run of a clear command: its two port deletions let a packet pass that every moment drops |
| Conntrack.EntryIsClosedForm | ebpf-firewall/bpf/firewall.c:280-312 | after every run a flow's entry is determined by the packets recorded since its creation: CLOSED iff one had FIN or RST, else ESTABLISHED iff the first had no SYN or a later one had ACK, else NEW |
| Conntrack.LifetimeStartsWithRule | ebpf-firewall/bpf/firewall.c:39-43 | every lifetime begins with a packet admitted by a rule |
| Conntrack.UnmatchedPassesIffEstablished | ebpf-firewall/bpf/firewall.c:412-421 | under default-deny an unmatched TCP packet passes exactly when its own 5-tuple is ESTABLISHED, and then a rule admitted an earlier packet of that 5-tuple with no deletion since |
| Conntrack.ReplyPassesIffOwnFlow | ebpf-firewall/bpf/firewall.c:260-282 | an unmatched reply passes under default-deny exactly when the reply's own 5-tuple is ESTABLISHED; the flow it answers makes no difference |
| Conntrack.ReplyIsNotCovered | ebpf-firewall/bpf/maps.h:143-147 | concrete run: a flow is ESTABLISHED and the reply to it is dropped |
| Conntrack.RankNeverDrops | ebpf-firewall/bpf/firewall.c:290-299 | between deletions an entry persists, its state rank never decreases, and CLOSED is final |
| Conntrack.FlowsOnlyShrink | ebpf-firewall/control/server/server.go:243-255 | from the moment both rule tables are empty until the next Put the flow table only shrinks, whatever packets arrive |
| Conntrack.ProjectionSeesTheSame | ebpf-firewall/bpf/firewall.c:284-312 | removing all other flows' packets and deletions from a run changes no verdict and no entry of a flow |
| Conntrack.FlowIsolation | ebpf-firewall/bpf/maps.h:185-190 | two runs that agree on rule changes and on one flow's packets and deletions agree on that flow's verdicts and entry, as long as the table never fills |
| Kernel.CommandLooksAtomic | ebpf-firewall/control/server/server.go:167-173 | a packet overlapped by one command collects the rules from before or after that command |
| Kernel.Maps.constructor | ebpf-firewall/bpf/maps.h:34-48 | all maps start empty and the default policy is ALLOW |
| Kernel.Maps.IpBlockAction | ebpf-firewall/bpf/firewall.c:140-159 | the rule of the longest prefix covering the source, else of the longest covering the destination, and none exactly when no prefix covers either |
| Kernel.Maps.TryLookup | ebpf-firewall/bpf/firewall.c:193-201 | the best stays a maximum of the rules probed so far, and on equal priority the earlier, more specific one |
| Kernel.Maps.PortRuleAction | ebpf-firewall/bpf/firewall.c:173-217 | matches exactly when a stored rule covers the packet, and then returns the winner's rule |
| Kernel.Maps.UpdateFlow | ebpf-firewall/bpf/firewall.c:284-312 | the flow table changes by ct_update and nothing else changes |
| Kernel.Maps.DecidePacket | ebpf-firewall/bpf/firewall.c:390-421 | the gated lookups and the decision give the verdict of the specification |
| Kernel.Maps.RunDatapath | ebpf-firewall/bpf/firewall.c:376-443 | the verdict and counters are as specified; every accepted TCP packet under deny is recorded, and nothing else |
| Kernel.Maps.FirewallProg | ebpf-firewall/bpf/firewall.c:367-443 | for every frame in every reachable state the verdict is the declarative one and the one of the always-look-up machine; the presence flags stay safe; the flow table follows accepted packets alone |
| Kernel.Maps.SteppedVerdict | ebpf-firewall/bpf/firewall.c:390-421 | with anything happening between its single map reads, the program's verdict is the one from nine separate reads at the moments it made them, and that of an atomic packet exactly unless the packet was overtaken |
| Kernel.Maps.Interfere | ebpf-firewall/control/server/server.go:46-47 | what any amount of concurrent traffic leaves unchanged for the actor it interrupts |
| Kernel.Maps.DeleteFlow | ebpf-firewall/control/ebpf/conntrack.go:111-115 | at most one Delete, of that flow only; it fails if the flow is absent |
| Kernel.Maps.NextFlow | ebpf-firewall/control/ebpf/conntrack.go:72-78 | one iterator step |
| Parser.ParseEthhdr | ebpf-firewall/bpf/helpers.h:38-49 | the EtherType word, or -1 with the cursor unmoved, exactly by whether the header fits |
| Parser.ParseIphdr | ebpf-firewall/bpf/helpers.h:51-69 | the protocol exactly when header and options fit and IHL is at least 5; the cursor moves by 4 IHL |
| Parser.Take | ebpf-firewall/bpf/helpers.h:84-108 | the bounds check and cursor move of the TCP and UDP parsers |
| Parser.ParsePacket | ebpf-firewall/bpf/firewall.c:84-132 | for every byte sequence: no read past the end, success exactly when the headers fit, and the fields at their offsets |
| Parser.ParsesIffFits | ebpf-firewall/bpf/helpers.h:38-69 | exactly the frames with EtherType 0x0800, header length at least 5 words and all of it present are parsed |
| Parser.FieldsAreBytes | ebpf-firewall/bpf/firewall.c:108-127 | addresses, protocol, ports and flags have the bytes at their offsets; without 20 bytes of TCP or 8 of UDP there are no ports and no flags |
| Parser.ParseInvertsFrame | ebpf-firewall/control/ebpf/datapath_integration_test.go:72-135 | parsing a built frame with any IHL 5..15 and any filler recovers addresses, protocol, ports and flags |
| Parser.ProbeMeetsStoredKey | ebpf-firewall/control/ebpf/portpolicy.go:99-119 | the probe keys of a parsed frame are byte for byte the keys the daemon stores for that destination, protocol and ports |
| Managers.SetPresenceBit | ebpf-firewall/control/ebpf/presence.go:22-33 | sets its own bit only, or fails and changes nothing |
| Managers.ClearPresenceBit | ebpf-firewall/control/ebpf/presence.go:35-46 | called while its table is empty, clears its own bit only, or fails and changes nothing |
| Managers.MapManager.SyncPresence | ebpf-firewall/control/ebpf/blocklist.go:61-72 | on success the bit says exactly whether the table is non-empty; the other bit stays |
| Managers.MapManager.BlockIPWithActionPriority | ebpf-firewall/control/ebpf/blocklist.go:92-108 | exactly one rule change on success, none on failure, its bit set, the other bit kept, flags safe at every point in between |
| Managers.MapManager.UnblockIP | ebpf-firewall/control/ebpf/blocklist.go:110-124 | at most one deletion, and on success the bit says exactly whether rules remain |
| Managers.MapManager.IsBlocked | ebpf-firewall/control/ebpf/blocklist.go:126-171 | an address is blocked exactly when it starts with the octets and bits of some stored prefix; a CIDR argument stands for its own address; fails only on a bad argument or a fault |
| Managers.MapManager.ListBlockedRules | ebpf-firewall/control/ebpf/blocklist.go:173-196 | one line for each stored rule and nothing else |
| Managers.ListedNetworkShowsRequest | ebpf-firewall/control/ebpf/blocklist.go:173-196 | a listed rule shows the network, action and priority of its request |
| Managers.MapManager.Clear | ebpf-firewall/control/ebpf/blocklist.go:211-228 | success leaves no IP rule and a clear bit; in any case every rule change made is a removal |
| Managers.PortPolicyManager.SyncPresence | ebpf-firewall/control/ebpf/portpolicy.go:53-63 | on success the bit says exactly whether the table is non-empty; the other bit stays |
| Managers.PortPolicyManager.BlockWithActionPriority | ebpf-firewall/control/ebpf/portpolicy.go:142-162 | exactly one rule change on success, none on failure, its bit set, the other bit kept |
| Managers.PortPolicyManager.UnblockWithAction | ebpf-firewall/control/ebpf/portpolicy.go:169-183 | at most one deletion, and on success the bit says exactly whether rules remain |
| Managers.ListedRuleShowsRequest | ebpf-firewall/control/ebpf/portpolicy.go:65-126 | listing a stored rule gives back the protocol, ports, destination, action and priority of its request |
| Managers.TableIsLastWrites | ebpf-firewall/control/ebpf/portpolicy.go:147-183 | after every run the port table is the last-write-wins map of logical rules |
| Managers.ListingIsLastWrites | ebpf-firewall/control/ebpf/portpolicy.go:185-209 | listing the table key by key lists exactly the last-written logical rules |
| Managers.PortPolicyManager.List | ebpf-firewall/control/ebpf/portpolicy.go:185-209 | one line for each last-written rule and nothing else |
| Managers.PortPolicyManager.Clear | ebpf-firewall/control/ebpf/portpolicy.go:211-227 | success leaves no port rule and a clear bit; in any case every rule change made is a removal |
| Managers.ConntrackManager.Keys | ebpf-firewall/control/ebpf/conntrack.go:63-80 | at the end of the snapshot every tracked flow has been collected |
| Managers.ConntrackManager.DeleteAll | ebpf-firewall/control/ebpf/conntrack.go:111-116 | among the flows nobody else touches, removes exactly those given before the failure; counts its deletions; without rules no flow can appear meanwhile |
| Managers.ConntrackManager.Clear | ebpf-firewall/control/ebpf/conntrack.go:105-117 | with no rules left, success means an empty table whatever packets arrived; in general success removes every flow nobody else touched |
| Managers.ConntrackManager.CollectStale | ebpf-firewall/control/ebpf/conntrack.go:128-150 | among the flows nobody else touches, collects exactly the stale ones; any other collected flow was stale at some moment of the scan |
| Managers.ConntrackManager.Reap | ebpf-firewall/control/ebpf/conntrack.go:119-160 | of the flows nobody else touches removes exactly those idle for at least idle, of the rest only flows that were stale at some moment of the call; counts its deletions also when one fails midway; fails only by a fault or when others touch flows |
| Managers.Server.HandleBlock | ebpf-firewall/control/server/server.go:176-194 | success stores, in the table the request's fields name and under their wire bytes, the action and priority asked for (DROP and 0 without an action) and changes nothing else; failure changes no rule and needs a fault, a bad request or a full table |
| Managers.Server.HandleUnblock | ebpf-firewall/control/server/server.go:196-206 | success removes exactly the rule with the request's key; failure needs a fault, a bad request or a missing rule |
| Managers.Server.HandleDefault | ebpf-firewall/control/server/server.go:237-241 | allow and deny set the default policy, other texts are refused |
| Managers.Server.HandleClear | ebpf-firewall/control/server/server.go:243-255 | an OK reply to clear means rules, flags and flows are all empty, whatever traffic there was; every rule change on the way is a removal; it fails only by a fault or when others touch flows |
| Managers.Server.Handle | ebpf-firewall/control/server/server.go:167-274 | every command keeps the flags safe throughout and, except clear, changes at most one rule, the one its request names; clear only removes rules, and all on success; listings show exactly the stored rules; without a fault only requests that may be refused are |
| Reaping.StaleMeaning | ebpf-firewall/control/ebpf/conntrack.go:122-146 | the unsigned cutoff collects exactly the entries idle for at least idle, never one stamped after the clock read; before idle has elapsed on the clock, exactly those stamped 0 |
| Reaping.EntriesAreRecent | ebpf-firewall/cmd/firewall/main.go:75-99 | in every scheduled run each entry outlived the last sweep's cutoff |
| Reaping.EvictionBound | ebpf-firewall/cmd/firewall/main.go:75-99 | at every moment of every scheduled run each tracked flow was refreshed less than timeout + max(timeout/2, 1s) ago |
| Reaping.YoungFlowsSurvive | ebpf-firewall/control/ebpf/conntrack.go:119-160 | in every scheduled run a flow seen at a time other than 0 stays tracked for less than the timeout after, and no sweep until then touches its entry, unless a command deletes it |
| Reaping.BoundIsReached | ebpf-firewall/cmd/firewall/main.go:78-82 | for every timeout a run reaches that bound less one nanosecond |
| Reaping.OneAndAHalfTimeouts | ebpf-firewall/cmd/firewall/main.go:75-77 | "within 1.5x the timeout" holds in all runs exactly for timeouts above two seconds less two nanoseconds |
| Counters.CountersBalance | ebpf-firewall/bpf/firewall.c:314-323 | at every interleaving point of any number of CPUs total = drop + pass + in flight modulo 2^64, for packets and bytes |
| Counters.LonePacketCounts | ebpf-firewall/bpf/firewall.c:422-442 | the four adds of a CPU that is not interleaved with others count like one atomic packet |
| Counters.SnapshotIsConsistent | ebpf-firewall/control/ebpf/counters.go:35-60 | total read first is at most drop + pass + in flight at that read, and drop + pass never exceeds the true total at the last read |
| Counters.GetCounters | ebpf-firewall/control/ebpf/counters.go:35-60 | while CPUs keep counting, total, drop and pass are each their own counter at the time of its lookup, a missing slot reads 0, any other error fails the call, and a complete snapshot is consistent |
| Checksum.Csum | ebpf-firewall/integration/smoke.py:101-109 | the complement of the result is congruent to the sum of the 16-bit words modulo 0xFFFF, odd data being padded with 0, and the result is 0xFFFF for zero bytes alone |
| Checksum.WordSumAdds | ebpf-firewall/integration/smoke.py:104-107 | the sum of two pieces is the sum of their sums |
| Checksum.FoldIsOnesSum | ebpf-firewall/integration/smoke.py:105-108 | one fold keeps the accumulator within 16 bits and congruent to the word sum modulo 65535 |
| Checksum.ChecksumVerifies | ebpf-firewall/integration/smoke.py:127-129 | writing the checksum into its zeroed aligned field makes the checksum of the whole 0, for any length |
| Checksum.PseudoSum | ebpf-firewall/integration/smoke.py:112-114 | a segment is summed with its addresses, protocol number 6 and its length |
| Checksum.TcpChecksumVerifies | ebpf-firewall/integration/smoke.py:112-123 | the same for a TCP segment under its pseudo-header |
| Format.FormatBytes | ebpf-firewall/cmd/firewallctl/main.go:300-312 | for every uint64 the divisor is the largest power of 1024 not above the value, never overflows, and the letter is K, M, G, T, P or E accordingly |
| Options.ExtractOptions | ebpf-firewall/cmd/firewallctl/main.go:76-186 | the loop implements the parser function, and accepted numbers fit their casts |
| Options.AcceptedNumbersFit | ebpf-firewall/cmd/firewallctl/main.go:188-204 | every accepted port fits 16 bits and every accepted priority 32 bits |
| Options.ParseIsAssembly | ebpf-firewall/cmd/firewallctl/main.go:82-186 | a well-formed command line parses to its positional words in order and the last value of each option |
| Options.AcceptedIsWellFormed | ebpf-firewall/cmd/firewallctl/main.go:82-186 | every accepted command line is a well-formed one, so the parser accepts nothing else |
| Options.WrittenNumberParses | ebpf-firewall/cmd/firewallctl/main.go:188-204 | the decimal digits of n parse to n exactly when n does not exceed the maximum |
| Options.OtherTextFails | ebpf-firewall/cmd/firewallctl/main.go:188-204 | an empty value and any character that is no digit are refused |
| Options.DocumentedNames | ebpf-firewall/cmd/firewallctl/main.go:85-176 | the six option names are recognised with one dash or two |
| Options.OptionsWorkAnywhere | ebpf-firewall/cmd/firewallctl/main.go:76-81 | every interleaving of the same words with the same distinct options, in either form, parses to the same result |

## Left out

- Loading, attaching and detaching the XDP program, generated bindings, BTF, sockets, JSON, the HTTP API, signals: input and output.
- The internals of the kernel's hash, array and LPM maps: assumed as stated above.
- Debug printing in the datapath (compiled out), ICMP header parsing (used only by it), the benchmark and smoke shell scripts, the learning examples.
- Error messages: failures are told apart from successes, not from each other.
- Managers with no presence map attached (used by standalone test maps): the facade always attaches one.
- Trimming and case folding of protocol names, and the text forms of addresses in listings.
- Managers.Server.Handle: replies to status, stats and conntrack change nothing; their success and contents are left open.
- Kernel.Maps.FirewallProg: one packet is a single event here; its separate map reads are the subject of Kernel.Maps.SteppedVerdict, its separate counter adds of Counters. A packet in flight across a conntrack deletion, which could re-insert a flow after CmdClear has emptied the table, is not modelled.
- Reaping.EvictionBound: sweeps are atomic and on time, and every sweep succeeds; a Clear that races the reaper can make a sweep fail early.
- Conntrack.FlowIsolation: assumes that the flow table never fills; a full table refuses new flows, which lets other flows interfere.
- Format.FormatBytes: stops before the floating-point quotient is rendered.
- Managers.ClearPresenceBit: stated for calls made while the table behind the bit is empty, as both callers guarantee; any other call would hide a rule (Datapath.ClearingNeedsEmptyTable).
- Linearize.LookupsLinearize: at most one change in the window of a rule that the packet could match, as also in Decision.TornVerdictIsAtomic. A clear command makes many: its IP half is covered by Linearize.ClearKeepsIpAtomic, its port half only by the counterexample Witnesses.ClearTears.
