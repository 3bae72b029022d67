/** The state of all maps, the events that change it, and the verdict of the packet program. */
module Datapath {
  import opened Wire
  import opened Policy
  import opened Prefixes

  /** The rule_presence word, by its two defined bits; the others are never set. */
  datatype PresenceWord = PresenceWord(ip: bool, port: bool)

  datatype PresenceBit = IP_PRESENT | PORT_PRESENT

  const NONE_PRESENT := PresenceWord(false, false)
  const BOTH_PRESENT := PresenceWord(true, true)

  predicate Present(flags: PresenceWord, bit: PresenceBit) {
    match bit
    case IP_PRESENT => flags.ip
    case PORT_PRESENT => flags.port
  }

  /** `flags | bit` for `on`, `flags &^ bit` otherwise. */
  function WithBit(flags: PresenceWord, bit: PresenceBit, on: bool): PresenceWord {
    match bit
    case IP_PRESENT => flags.(ip := on)
    case PORT_PRESENT => flags.(port := on)
  }

  const MAX_RULES := 65535
  const MAX_FLOWS := 65536

  datatype Flow = Flow(saddr: u32, daddr: u32, sport: u16, dport: u16, protocol: u8)

  datatype CtState = New | Established | Closed

  datatype CtEntry = CtEntry(lastSeen: u64, state: CtState)

  type CtTable = map<Flow, CtEntry>

  datatype Tally = Tally(packets: u64, bytes: u64)

  datatype Stats = Stats(total: Tally, drop: Tally, pass: Tally)

  datatype State = State(ips: IpTable, ports: PortTable, flags: PresenceWord, policy: u32, ct: CtTable, stats: Stats)

  const BOOT := State(map[], map[], NONE_PRESENT, DEFAULT_ALLOW, map[], Stats(Tally(0, 0), Tally(0, 0), Tally(0, 0)))

  datatype Actor = Control | Reaper

  /** One atomic change of the maps: a whole packet, or one Put or Delete of the daemon. */
  datatype Event =
    | Packet(info: Option<PacketInfo>, len: nat, now: u64)
    | PutIp(prefix: LpmKey, rule: Rule)
    | DelIp(prefix: LpmKey)
    | PutPort(key: PortKey, rule: Rule)
    | DelPort(key: PortKey)
    | PutFlags(flags: PresenceWord)
    | PutPolicy(policy: u32)
    | DelCt(flow: Flow, actor: Actor)

  type Log = seq<Event>

  // ----- one packet --------------------------------------------------------------

  function MatchedIp(s: State, p: PacketInfo): Option<Rule> {
    if Present(s.flags, IP_PRESENT) then IpLookup(s.ips, p) else None
  }

  function MatchedPort(s: State, p: PacketInfo): Option<Rule> {
    if Present(s.flags, PORT_PRESENT) then PortLookup(s.ports, p) else None
  }

  predicate RuleMatched(s: State, p: PacketInfo) {
    MatchedIp(s, p).Some? || MatchedPort(s, p).Some?
  }

  function FlowOf(p: PacketInfo): Flow {
    Flow(p.saddr, p.daddr, p.sport, p.dport, p.protocol)
  }

  predicate CtIsEstablished(ct: CtTable, p: PacketInfo) {
    FlowOf(p) in ct && ct[FlowOf(p)].state == Established
  }

  function DefaultVerdict(policy: u32): Verdict {
    if policy == DEFAULT_DENY then Drop else Pass
  }

  function VerdictOf(s: State, info: Option<PacketInfo>): Verdict {
    match info
    case None => DefaultVerdict(s.policy)
    case Some(p) =>
      if RuleMatched(s, p) then Decide(MatchedIp(s, p), MatchedPort(s, p), s.policy)
      else if s.policy == DEFAULT_DENY && p.protocol == PROTO_TCP && CtIsEstablished(s.ct, p) then Pass
      else DefaultVerdict(s.policy)
  }

  /** The entry ct_update leaves for a flow that had the entry `prior`. */
  function NextEntry(prior: Option<CtEntry>, f: TcpFlags, now: u64): CtEntry {
    match prior
    case Some(v) =>
      CtEntry(now, if f.fin || f.rst then Closed else if v.state == New && f.ack then Established else v.state)
    case None =>
      CtEntry(now, if f.fin || f.rst then Closed else if f.syn then New else Established)
  }

  function Entry(ct: CtTable, k: Flow): Option<CtEntry> {
    if k in ct then Some(ct[k]) else None
  }

  /** ct_update; inserting into a full table fails and the program ignores the failure. */
  function CtUpdate(ct: CtTable, p: PacketInfo, now: u64): CtTable {
    var k := FlowOf(p);
    if k !in ct && |ct| >= MAX_FLOWS then ct else ct[k := NextEntry(Entry(ct, k), p.flags, now)]
  }

  function Count(t: Tally, len: nat): Tally {
    Tally((t.packets + 1) % 0x1_0000_0000_0000_0000, (t.bytes + len) % 0x1_0000_0000_0000_0000)
  }

  function CountVerdict(s: Stats, v: Verdict, len: nat): Stats {
    Stats(Count(s.total, len),
          if v == Drop then Count(s.drop, len) else s.drop,
          if v == Pass then Count(s.pass, len) else s.pass)
  }

  /** The packet is accepted in a situation where the program records its flow. */
  predicate Tracked(s: State, info: Option<PacketInfo>) {
    && info.Some? && VerdictOf(s, info) == Pass
    && s.policy == DEFAULT_DENY && info.value.protocol == PROTO_TCP
  }

  function OnPacket(s: State, info: Option<PacketInfo>, len: nat, now: u64): State {
    s.(ct := if Tracked(s, info) then CtUpdate(s.ct, info.value, now) else s.ct,
       stats := CountVerdict(s.stats, VerdictOf(s, info), len))
  }

  // ----- which packets are recorded, and how, from the outside -----------------------------

  /** The state that a recorded packet leaves in the entry of its flow. */
  ghost predicate StateFollows(was: Option<CtEntry>, f: TcpFlags, now: CtState) {
    && (f.fin || f.rst ==> now == Closed)
    && (!f.fin && !f.rst && was.None? ==> now == if f.syn then New else Established)
    && (!f.fin && !f.rst && was.Some? && was.value.state == New ==> now == if f.ack then Established else New)
    && (!f.fin && !f.rst && was.Some? && was.value.state != New ==> now == was.value.state)
  }

  /** An accepted TCP packet under default-deny, matched by a rule or not, refreshes the entry of its own flow, or
      makes one while the table has room; nothing else changes a flow table. */
  ghost predicate FlowsFollow(s: State, info: Option<PacketInfo>, verdict: Verdict, now: u64, ct: CtTable) {
    if info.Some? && verdict == Pass && s.policy == DEFAULT_DENY && info.value.protocol == PROTO_TCP then
      var k := FlowOf(info.value);
      if k in s.ct || |s.ct| < 65536 then
        && k in ct && ct == s.ct[k := ct[k]]
        && ct[k].lastSeen == now && StateFollows(Entry(s.ct, k), info.value.flags, ct[k].state)
      else ct == s.ct
    else ct == s.ct
  }

  lemma AcceptedIsRecorded(s: State, info: Option<PacketInfo>, len: nat, now: u64)
    ensures FlowsFollow(s, info, VerdictOf(s, info), now, OnPacket(s, info, len, now).ct)
  {
  }

  // ----- runs ---------------------------------------------------------------------

  function Apply(s: State, e: Event): State {
    match e
    case Packet(info, len, now) => OnPacket(s, info, len, now)
    case PutIp(k, r) => s.(ips := s.ips[k := r])
    case DelIp(k) => s.(ips := s.ips - {k})
    case PutPort(k, r) => s.(ports := s.ports[k := r])
    case DelPort(k) => s.(ports := s.ports - {k})
    case PutFlags(f) => s.(flags := f)
    case PutPolicy(d) => s.(policy := d)
    case DelCt(k, _) => s.(ct := s.ct - {k})
  }

  function Replay(log: Log): State {
    if log == [] then BOOT else Apply(Replay(log[..|log| - 1]), log[|log| - 1])
  }

  /** The flow table never holds more than its capacity. */
  lemma {:induction false} FlowTableIsBounded(log: Log)
    ensures |Replay(log).ct| <= 65536
    decreases |log|
  {
    if log != [] {
      var n := |log| - 1;
      FlowTableIsBounded(log[..n]);
      FlowTableStep(Replay(log[..n]), log[n]);
    }
  }

  lemma RemovedIsSmaller<K, V>(m: map<K, V>, k: K)
    ensures |m - {k}| <= |m|
  {
    assert (m - {k}).Keys == m.Keys - {k};
    if k in m {
      assert |m.Keys - {k}| == |m.Keys| - 1;
    } else {
      assert m.Keys - {k} == m.Keys;
    }
  }

  lemma StoredIsLarger<K, V>(m: map<K, V>, k: K, v: V)
    ensures |m[k := v]| == if k in m then |m| else |m| + 1
  {
    assert m[k := v].Keys == m.Keys + {k};
    if k in m { assert m.Keys + {k} == m.Keys; }
  }

  lemma FlowTableStep(s: State, e: Event)
    requires |s.ct| <= MAX_FLOWS
    ensures |Apply(s, e).ct| <= MAX_FLOWS
  {
    if e.DelCt? {
      RemovedIsSmaller(s.ct, e.flow);
    } else if e.Packet? && Tracked(s, e.info) {
      var k := FlowOf(e.info.value);
      StoredIsLarger(s.ct, k, NextEntry(Entry(s.ct, k), e.info.value.flags, e.now));
    }
  }

  /** The flag word never hides a rule. */
  predicate PresenceSafe(s: State) {
    && (s.ips != map[] ==> Present(s.flags, IP_PRESENT))
    && (s.ports != map[] ==> Present(s.flags, PORT_PRESENT))
  }

  /** Clearing a bit keeps the flags safe exactly when the table behind it is empty. */
  lemma ClearingNeedsEmptyTable(s: State, bit: PresenceBit)
    requires PresenceSafe(s)
    ensures PresenceSafe(s.(flags := WithBit(s.flags, bit, false))) <==>
      if bit == IP_PRESENT then s.ips == map[] else s.ports == map[]
  {
  }

  ghost predicate AllSafe(log: Log) {
    forall n :: 0 <= n <= |log| ==> PresenceSafe(Replay(log[..n]))
  }

  lemma ReplayAppend(log: Log, e: Event)
    ensures Replay(log + [e]) == Apply(Replay(log), e)
    ensures AllSafe(log) && PresenceSafe(Replay(log + [e])) ==> AllSafe(log + [e])
  {
    assert (log + [e])[..|log|] == log;
    if AllSafe(log) && PresenceSafe(Replay(log + [e])) {
      forall n | 0 <= n <= |log| + 1 ensures PresenceSafe(Replay((log + [e])[..n])) {
        if n <= |log| { assert (log + [e])[..n] == log[..n]; } else { assert (log + [e])[..n] == log + [e]; }
      }
    }
  }

  // ----- the flags are invisible: refinement of the always-look-up machine ---------

  lemma EmptyTablesMiss(p: PacketInfo)
    ensures IpLookup(map[], p).None? && PortLookup(map[], p).None?
  {
    LpmLookupIsLongest(map[], p.saddr);
    LpmLookupIsLongest(map[], p.daddr);
  }

  lemma SafeFlagsInvisible(s: State, p: PacketInfo)
    requires PresenceSafe(s)
    ensures MatchedIp(s, p) == IpLookup(s.ips, p) && MatchedPort(s, p) == PortLookup(s.ports, p)
  {
    EmptyTablesMiss(p);
  }

  /** The machine that knows no flag word: every lookup is made, flag writes do not exist, and
      each Block or Unblock is the one event that puts or deletes its rule. */
  function AlwaysLookup(log: Log): State {
    if log == [] then BOOT.(flags := BOTH_PRESENT)
    else
      var prev := AlwaysLookup(log[..|log| - 1]);
      var e := log[|log| - 1];
      if e.PutFlags? then prev else Apply(prev, e)
  }

  lemma GatedVerdict(s: State, info: Option<PacketInfo>)
    requires PresenceSafe(s)
    ensures VerdictOf(s, info) == VerdictOf(s.(flags := BOTH_PRESENT), info)
  {
    if info.Some? {
      SafeFlagsInvisible(s, info.value);
      SafeFlagsInvisible(s.(flags := BOTH_PRESENT), info.value);
    }
  }

  lemma GatedStep(s: State, e: Event)
    requires PresenceSafe(s)
    ensures Apply(s, e).(flags := BOTH_PRESENT) ==
      if e.PutFlags? then s.(flags := BOTH_PRESENT) else Apply(s.(flags := BOTH_PRESENT), e)
  {
    if e.Packet? { GatedVerdict(s, e.info); }
  }

  lemma SafePrefix(log: Log, n: nat)
    requires AllSafe(log) && n <= |log|
    ensures AllSafe(log[..n]) && PresenceSafe(Replay(log[..n])) && PresenceSafe(Replay(log))
  {
    assert log[..|log|] == log;
    forall m | 0 <= m <= n ensures PresenceSafe(Replay(log[..n][..m])) {
      assert log[..n][..m] == log[..m];
    }
  }

  lemma {:induction false} TablesRefine(log: Log)
    requires AllSafe(log)
    ensures Replay(log).(flags := BOTH_PRESENT) == AlwaysLookup(log)
    decreases |log|
  {
    if log != [] {
      var n := |log| - 1;
      SafePrefix(log, n);
      TablesRefine(log[..n]);
      GatedStep(Replay(log[..n]), log[n]);
    }
  }

  /** Over every run in which the flags stay safe, the gated firewall and the always-look-up
      machine agree on all tables, flows and counters, and on the verdict of the next packet. */
  lemma GatingRefinesAlwaysLookup(log: Log, info: Option<PacketInfo>)
    requires AllSafe(log)
    ensures Replay(log).(flags := BOTH_PRESENT) == AlwaysLookup(log)
    ensures VerdictOf(Replay(log), info) == VerdictOf(AlwaysLookup(log), info)
  {
    TablesRefine(log);
    SafePrefix(log, |log|);
    GatedVerdict(Replay(log), info);
  }

  /** Why the commands need Server.mu: two block commands that both read the flag word before either
      writes it lose one bit, and the datapath then passes a packet that a stored rule drops. */
  lemma LostUpdateWithoutMutex() returns (log: Log, p: PacketInfo)
    ensures log == [
      PutFlags(WithBit(BOOT.flags, IP_PRESENT, true)), PutIp(LpmKey(32, p.saddr), Rule(ACTION_DROP, 0)),
      PutFlags(WithBit(BOOT.flags, PORT_PRESENT, true)), PutPort(PortKey(PROTO_TCP, 0, 0, 1), Rule(ACTION_DROP, 0))]
    ensures !PresenceSafe(Replay(log))
    ensures VerdictOf(Replay(log), Some(p)) == Pass && VerdictOf(AlwaysLookup(log), Some(p)) == Drop
  {
    p := PacketInfo(0, 2, PROTO_UDP, 3, 4, NO_FLAGS);
    var ip, port := LpmKey(32, 0), PortKey(PROTO_TCP, 0, 0, 1);
    var rule := Rule(ACTION_DROP, 0);
    var l1 := [PutFlags(WithBit(BOOT.flags, IP_PRESENT, true))];
    var l2 := l1 + [PutIp(ip, rule)];
    var l3 := l2 + [PutFlags(WithBit(BOOT.flags, PORT_PRESENT, true))];
    log := l3 + [PutPort(port, rule)];
    LookupAppend([], l1[0]);
    LookupAppend(l1, PutIp(ip, rule));
    LookupAppend(l2, PutFlags(WithBit(BOOT.flags, PORT_PRESENT, true)));
    LookupAppend(l3, PutPort(port, rule));
    assert [] + l1 == l1;
    var s := BOOT.(ips := map[ip := rule], ports := map[port := rule], flags := PresenceWord(false, true));
    assert Replay(log) == s && AlwaysLookup(log) == s.(flags := BOTH_PRESENT);
    assert Mask(0, 32) == 0 && LpmFrom(s.ips, 0, 32) == Some(ip);
  }

  lemma LookupAppend(log: Log, e: Event)
    ensures Replay(log + [e]) == Apply(Replay(log), e)
    ensures AlwaysLookup(log + [e]) == if e.PutFlags? then AlwaysLookup(log) else Apply(AlwaysLookup(log), e)
  {
    assert (log + [e])[..|log|] == log;
  }

  // ----- the whole datapath, declaratively ------------------------------------------

  ghost predicate IpCandidate(t: IpTable, p: PacketInfo, r: Option<Rule>) {
    match r
    case None => Uncovered(t, p.saddr) && Uncovered(t, p.daddr)
    case Some(rule) =>
      || (exists k :: IsLongest(t, p.saddr, k) && t[k] == rule)
      || (Uncovered(t, p.saddr) && exists k :: IsLongest(t, p.daddr, k) && t[k] == rule)
  }

  ghost predicate PortCandidate(t: PortTable, p: PacketInfo, r: Option<Rule>) {
    match r
    case None => Unmatched(t, p)
    case Some(rule) => exists k :: IsWinner(t, p, k) && t[k] == rule
  }

  /** What a packet with these candidates deserves. */
  ghost predicate Deserves(s: State, p: PacketInfo, ip: Option<Rule>, port: Option<Rule>) {
    if ip.None? && port.None? then
      || s.policy != DEFAULT_DENY
      || (p.protocol == PROTO_TCP && FlowOf(p) in s.ct && s.ct[FlowOf(p)].state == Established)
    else !TopPriorityDrops(Candidates(ip, port))
  }

  ghost predicate ShouldPass(s: State, info: Option<PacketInfo>) {
    match info
    case None => s.policy != DEFAULT_DENY
    case Some(p) =>
      exists ip, port :: IpCandidate(s.ips, p, ip) && PortCandidate(s.ports, p, port) && Deserves(s, p, ip, port)
  }

  lemma IpLookupIsCandidate(t: IpTable, p: PacketInfo, ip: Option<Rule>)
    ensures IpCandidate(t, p, ip) <==> ip == IpLookup(t, p)
  {
    LpmLookupIsLongest(t, p.saddr);
    LpmLookupIsLongest(t, p.daddr);
  }

  lemma PortLookupIsCandidate(t: PortTable, p: PacketInfo, port: Option<Rule>)
    ensures PortCandidate(t, p, port) <==> port == PortLookup(t, p)
  {
    PortLookupIsWinner(t, p);
  }

  lemma VerdictIsDeserved(s: State, p: PacketInfo)
    requires PresenceSafe(s)
    ensures VerdictOf(s, Some(p)) == Pass <==> Deserves(s, p, IpLookup(s.ips, p), PortLookup(s.ports, p))
  {
    SafeFlagsInvisible(s, p);
    DecideIsTopPriority(IpLookup(s.ips, p), PortLookup(s.ports, p), s.policy);
  }

  /** In every presence-safe state the program passes exactly the packets that should pass. */
  lemma VerdictIsDeclarative(s: State, info: Option<PacketInfo>)
    requires PresenceSafe(s)
    ensures VerdictOf(s, info) == Pass <==> ShouldPass(s, info)
  {
    if info.Some? {
      var p := info.value;
      VerdictIsDeserved(s, p);
      IpLookupIsCandidate(s.ips, p, IpLookup(s.ips, p));
      PortLookupIsCandidate(s.ports, p, PortLookup(s.ports, p));
      if ip, port :| IpCandidate(s.ips, p, ip) && PortCandidate(s.ports, p, port) && Deserves(s, p, ip, port) {
        IpLookupIsCandidate(s.ips, p, ip);
        PortLookupIsCandidate(s.ports, p, port);
      }
    }
  }

  /** Whatever two flow tables are compared, they can disagree only on an unmatched TCP packet
      under default-deny, which passes exactly where its own flow is established. */
  lemma ConntrackOnlyAdmits(s: State, ct: CtTable, info: Option<PacketInfo>)
    requires VerdictOf(s, info) != VerdictOf(s.(ct := ct), info)
    ensures info.Some? && !RuleMatched(s, info.value)
    ensures s.policy == DEFAULT_DENY && info.value.protocol == PROTO_TCP
    ensures VerdictOf(s, info) == Pass <==> CtIsEstablished(s.ct, info.value)
    ensures VerdictOf(s.(ct := map[]), info) == Drop
  {
    var p := info.value;
    assert MatchedIp(s, p) == MatchedIp(s.(ct := ct), p) && MatchedPort(s, p) == MatchedPort(s.(ct := ct), p);
    assert MatchedIp(s, p) == MatchedIp(s.(ct := map[]), p) && MatchedPort(s, p) == MatchedPort(s.(ct := map[]), p);
  }

  // ----- when a DROP rule decides ----------------------------------------------------------

  /** The IP rule that the packet's lookups select. */
  ghost predicate IpSelected(t: IpTable, p: PacketInfo, k: LpmKey) {
    IsLongest(t, p.saddr, k) || (Uncovered(t, p.saddr) && IsLongest(t, p.daddr, k))
  }

  /** A DROP in the IP table decides when it is selected and no matching port rule has a higher priority. */
  ghost predicate IpDropDecides(s: State, p: PacketInfo, k: LpmKey) {
    && IpSelected(s.ips, p, k) && s.ips[k].action == ACTION_DROP
    && forall q :: q in s.ports && Matches(q, p) ==> s.ports[q].priority <= s.ips[k].priority
  }

  /** A DROP in the port table decides when it wins there and the selected IP rule has no higher priority. */
  ghost predicate PortDropDecides(s: State, p: PacketInfo, k: PortKey) {
    && IsWinner(s.ports, p, k) && s.ports[k].action == ACTION_DROP
    && forall q :: IpSelected(s.ips, p, q) ==> s.ips[q].priority <= s.ports[k].priority
  }

  lemma SelectedIsLookup(t: IpTable, p: PacketInfo)
    ensures forall k :: IpSelected(t, p, k) ==> IpLookup(t, p) == Some(t[k])
    ensures IpLookup(t, p).Some? ==> exists k :: IpSelected(t, p, k)
  {
    LpmLookupIsLongest(t, p.saddr);
    LpmLookupIsLongest(t, p.daddr);
    if LpmLookup(t, p.saddr).Some? {
      var k :| IsLongest(t, p.saddr, k);
      assert IpSelected(t, p, k);
    } else if LpmLookup(t, p.daddr).Some? {
      var k :| IsLongest(t, p.daddr, k);
      assert IpSelected(t, p, k);
    }
  }

  lemma IpDropIff(s: State, p: PacketInfo)
    ensures (exists k :: IpDropDecides(s, p, k)) <==>
      var ip, port := IpLookup(s.ips, p), PortLookup(s.ports, p);
      ip.Some? && ip.value.action == ACTION_DROP && (port.Some? ==> port.value.priority <= ip.value.priority)
  {
    var ip, port := IpLookup(s.ips, p), PortLookup(s.ports, p);
    SelectedIsLookup(s.ips, p);
    PortLookupIsWinner(s.ports, p);
    if ip.Some? {
      var i :| IpSelected(s.ips, p, i);
      if port.Some? {
        var w :| IsWinner(s.ports, p, w);
        assert forall q :: q in s.ports && Matches(q, p) ==> s.ports[q].priority <= s.ports[w].priority;
      }
      if ip.value.action == ACTION_DROP && (port.Some? ==> port.value.priority <= ip.value.priority) {
        assert IpDropDecides(s, p, i);
      }
    }
  }

  lemma PortDropIff(s: State, p: PacketInfo)
    ensures (exists k :: PortDropDecides(s, p, k)) <==>
      var ip, port := IpLookup(s.ips, p), PortLookup(s.ports, p);
      port.Some? && port.value.action == ACTION_DROP && (ip.Some? ==> ip.value.priority <= port.value.priority)
  {
    var ip, port := IpLookup(s.ips, p), PortLookup(s.ports, p);
    SelectedIsLookup(s.ips, p);
    PortLookupIsWinner(s.ports, p);
    if port.Some? {
      var w :| IsWinner(s.ports, p, w);
      if port.value.action == ACTION_DROP && (ip.Some? ==> ip.value.priority <= port.value.priority) {
        assert PortDropDecides(s, p, w);
      }
    }
  }

  /** A packet that matches any rule is dropped exactly when some DROP rule decides. */
  lemma DropDecides(s: State, p: PacketInfo)
    requires PresenceSafe(s) && RuleMatched(s, p)
    ensures VerdictOf(s, Some(p)) == Drop <==>
      (exists k :: IpDropDecides(s, p, k)) || (exists k :: PortDropDecides(s, p, k))
  {
    SafeFlagsInvisible(s, p);
    IpDropIff(s, p);
    PortDropIff(s, p);
  }

  /** What a matching DROP of the port table can lose to: a PASS that outranks it there, or a PASS of higher
      priority among the IP rules. */
  lemma PortDropLosesTo(s: State, p: PacketInfo, k: PortKey)
    requires PresenceSafe(s) && k in s.ports && Matches(k, p) && s.ports[k].action == ACTION_DROP
    ensures VerdictOf(s, Some(p)) == Pass ==>
      || (exists q :: IsWinner(s.ports, p, q) && s.ports[q].action != ACTION_DROP && Outranks(s.ports, q, k))
      || (exists q :: IpSelected(s.ips, p, q) && s.ips[q].action != ACTION_DROP &&
            s.ips[q].priority > s.ports[k].priority)
  {
    SafeFlagsInvisible(s, p);
    SelectedIsLookup(s.ips, p);
    PortLookupIsWinner(s.ports, p);
    if VerdictOf(s, Some(p)) == Pass {
      var w :| IsWinner(s.ports, p, w);
      if s.ports[w].action == ACTION_DROP {
        var q :| IpSelected(s.ips, p, q);
        assert s.ips[q].priority > s.ports[w].priority;
      }
    }
  }

  function WithRules(ips: IpTable, ports: PortTable, policy: u32): State {
    BOOT.(ips := ips, ports := ports, flags := BOTH_PRESENT, policy := policy)
  }

  /** All three happen: a matching DROP loses to a PASS of higher priority in the other table, to a more specific
      PASS of the same priority among the port rules, and to a longer PASS prefix of whatever priority. */
  lemma DropCanLose(p: PacketInfo, drop: Rule, pass: Rule, policy: u32)
    requires drop.action == ACTION_DROP && pass.action == ACTION_PASS && p.dport != 0
    ensures var exact, wild := PortKey(p.protocol, p.dport, 0, p.daddr), PortKey(p.protocol, 0, 0, p.daddr);
      && (drop.priority < pass.priority ==>
            VerdictOf(WithRules(map[LpmKey(32, p.saddr) := drop], map[exact := pass], policy), Some(p)) == Pass)
      && (drop.priority == pass.priority ==>
            VerdictOf(WithRules(map[], map[wild := drop, exact := pass], policy), Some(p)) == Pass)
    ensures
      VerdictOf(WithRules(map[LpmKey(0, 0) := drop, LpmKey(32, p.saddr) := pass], map[], policy), Some(p)) == Pass
  {
    EmptyTablesMiss(p);
    HostPrefixWins(map[LpmKey(32, p.saddr) := drop], p.saddr);
    HostPrefixWins(map[LpmKey(0, 0) := drop, LpmKey(32, p.saddr) := pass], p.saddr);
  }

  lemma HostPrefixWins(t: IpTable, w: u32)
    requires LpmKey(32, w) in t
    ensures LpmLookup(t, w) == Some(t[LpmKey(32, w)])
  {
    SwapTwice(w);
    assert Mask(w, 32) == w;
  }

  // ----- the counters of whole packets ---------------------------------------------

  datatype Load = Load(packets: nat, bytes: nat)

  /** What went through a run with verdict `v`, counted without bound. */
  function Handled(log: Log, v: Verdict): Load {
    if log == [] then Load(0, 0)
    else
      var n := |log| - 1;
      var before, e := Handled(log[..n], v), log[n];
      if e.Packet? && VerdictOf(Replay(log[..n]), e.info) == v then Load(before.packets + 1, before.bytes + e.len)
      else before
  }

  function Wrap(packets: nat, bytes: nat): Tally {
    Tally(packets % 0x1_0000_0000_0000_0000, bytes % 0x1_0000_0000_0000_0000)
  }

  ghost predicate Counts(s: Stats, d: Load, p: Load) {
    && s.drop == Wrap(d.packets, d.bytes) && s.pass == Wrap(p.packets, p.bytes)
    && s.total == Wrap(d.packets + p.packets, d.bytes + p.bytes)
  }

  lemma CountWraps(packets: nat, bytes: nat, len: nat)
    ensures Count(Wrap(packets, bytes), len) == Wrap(packets + 1, bytes + len)
  {
  }

  lemma CountsOneMore(s: Stats, d: Load, p: Load, len: nat)
    requires Counts(s, d, p)
    ensures Counts(CountVerdict(s, Drop, len), Load(d.packets + 1, d.bytes + len), p)
    ensures Counts(CountVerdict(s, Pass, len), d, Load(p.packets + 1, p.bytes + len))
  {
    CountWraps(d.packets, d.bytes, len);
    CountWraps(p.packets, p.bytes, len);
    CountWraps(d.packets + p.packets, d.bytes + p.bytes, len);
  }

  /** The drop and pass counters count exactly the packets with their verdict, and total counts both,
      modulo 2^64. */
  lemma {:induction false} CountersCountVerdicts(log: Log)
    ensures Counts(Replay(log).stats, Handled(log, Drop), Handled(log, Pass))
    decreases |log|
  {
    if log != [] {
      var n := |log| - 1;
      CountersCountVerdicts(log[..n]);
      var s, d, p := Replay(log[..n]), Handled(log[..n], Drop), Handled(log[..n], Pass);
      if log[n].Packet? {
        CountsOneMore(s.stats, d, p, log[n].len);
      }
    }
  }
}
