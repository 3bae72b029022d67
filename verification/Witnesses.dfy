/** Runs that show where a packet's separate reads fit no single moment. */
module Witnesses {
  import opened Wire
  import opened Policy
  import opened Datapath
  import opened Linearize
  import opened Decision

  const ALLOW := Rule(ACTION_PASS, 0)

  predicate IsAllowed(p: PacketInfo, k: PortKey) {
    && p.protocol == PROTO_TCP && p.dport != 0 && p.sport != 0
    && k == PortKey(p.protocol, p.dport, p.sport, p.daddr)
  }

  /** A state without IP rules. */
  predicate IsPortState(s: State, policy: u32, ports: PortTable, present: bool, ct: CtTable) {
    && s.ips == map[] && s.ports == ports && s.flags == PresenceWord(false, present) && s.policy == policy
    && s.ct == ct
  }

  // ----- runs, state by state --------------------------------------------------------------------

  predicate Stepped(st: seq<State>, log: Log, i: nat)
    requires i < |log| && |st| == |log| + 1
  {
    st[i + 1] == Apply(st[i], log[i])
  }

  ghost predicate Trace(st: seq<State>, log: Log) {
    && |st| == |log| + 1 && st[0] == BOOT
    && forall i :: 0 <= i < |log| ==> Stepped(st, log, i)
  }

  ghost predicate ShowsRun(st: seq<State>, log: Log) {
    && |st| == |log| + 1
    && forall i {:trigger At(log, i)} :: 0 <= i <= |log| ==> st[i] == At(log, i)
  }

  lemma TraceOf(log: Log) returns (st: seq<State>)
    ensures Trace(st, log) && ShowsRun(st, log)
  {
    st := seq(|log| + 1, i requires 0 <= i <= |log| => At(log, i));
    assert log[..0] == [];
    forall i | 0 <= i < |log| ensures Stepped(st, log, i) {
      AtNext(log, i);
    }
  }

  lemma TraceIsSafe(st: seq<State>, log: Log)
    requires ShowsRun(st, log) && forall i :: 0 <= i <= |log| ==> PresenceSafe(st[i])
    ensures AllSafe(log)
  {
    forall i | 0 <= i <= |log| ensures PresenceSafe(Replay(log[..i])) {
      assert st[i] == At(log, i);
    }
  }

  lemma StartState(st: seq<State>, log: Log)
    requires Trace(st, log)
    ensures IsPortState(st[0], DEFAULT_ALLOW, map[], false, map[])
  {
  }

  lemma PolicyStep(st: seq<State>, log: Log, i: nat, policy: u32, was: u32, ports: PortTable, present: bool,
                   ct: CtTable)
    requires Trace(st, log) && i < |log| && log[i] == PutPolicy(policy)
    requires IsPortState(st[i], was, ports, present, ct)
    ensures IsPortState(st[i + 1], policy, ports, present, ct)
  {
    assert Stepped(st, log, i);
  }

  lemma FlagStep(st: seq<State>, log: Log, i: nat, policy: u32, ports: PortTable, was: bool, present: bool,
                 ct: CtTable)
    requires Trace(st, log) && i < |log| && log[i] == PutFlags(PresenceWord(false, present))
    requires IsPortState(st[i], policy, ports, was, ct)
    ensures IsPortState(st[i + 1], policy, ports, present, ct)
  {
    assert Stepped(st, log, i);
  }

  lemma PutStep(st: seq<State>, log: Log, i: nat, k: PortKey, r: Rule, policy: u32, ports: PortTable, ct: CtTable)
    requires Trace(st, log) && i < |log| && log[i] == PutPort(k, r)
    requires IsPortState(st[i], policy, ports, true, ct)
    ensures IsPortState(st[i + 1], policy, ports[k := r], true, ct)
  {
    assert Stepped(st, log, i);
  }

  lemma DelStep(st: seq<State>, log: Log, i: nat, k: PortKey, policy: u32, ports: PortTable, ct: CtTable)
    requires Trace(st, log) && i < |log| && log[i] == DelPort(k)
    requires IsPortState(st[i], policy, ports, true, ct)
    ensures IsPortState(st[i + 1], policy, ports - {k}, true, ct)
  {
    assert Stepped(st, log, i);
  }

  // ----- a packet that the only rule allows -----------------------------------------------------

  lemma AllowedPasses(s: State, p: PacketInfo, k: PortKey, ct: CtTable)
    requires IsPortState(s, DEFAULT_DENY, map[k := ALLOW], true, ct) && IsAllowed(p, k)
    ensures RuleMatched(s, p) && VerdictOf(s, Some(p)) == Pass
  {
    assert MatchedIp(s, p) == None && MatchedPort(s, p) == Some(ALLOW);
  }

  lemma PacketStep(st: seq<State>, log: Log, i: nat, p: PacketInfo, now: u64, k: PortKey, ct: CtTable)
    requires Trace(st, log) && i < |log| && log[i] == Packet(Some(p), 60, now) && IsAllowed(p, k)
    requires IsPortState(st[i], DEFAULT_DENY, map[k := ALLOW], true, ct)
    requires FlowOf(p) in ct || |ct| < MAX_FLOWS
    ensures IsPortState(st[i + 1], DEFAULT_DENY, map[k := ALLOW], true,
                        ct[FlowOf(p) := NextEntry(Entry(ct, FlowOf(p)), p.flags, now)])
  {
    assert Stepped(st, log, i);
    AllowedPasses(st[i], p, k, ct);
  }

  // ----- one command: the overtaken packet --------------------------------------------------------

  /** The flow of `p` is established through the rule at `k`. The rule is unblocked; then a block command
      puts it back, and a FIN closes the flow. */
  predicate IsOvertakenRun(log: Log, p: PacketInfo, fin: PacketInfo, k: PortKey) {
    && IsAllowed(p, k) && p.flags == NO_FLAGS.(ack := true) && fin == p.(flags := TcpFlags(true, false, false, true))
    && |log| == 9 && log[0] == PutPolicy(DEFAULT_DENY)
    && log[1] == PutFlags(PresenceWord(false, true)) && log[2] == PutPort(k, ALLOW)
    && log[3] == Packet(Some(p), 60, 1)
    && log[4] == DelPort(k) && log[5] == PutFlags(PresenceWord(false, false))
    && log[6] == PutFlags(PresenceWord(false, true)) && log[7] == PutPort(k, ALLOW)
    && log[8] == Packet(Some(fin), 60, 2)
  }

  ghost predicate EstablishedStates(st: seq<State>, p: PacketInfo, k: PortKey) {
    && |st| == 10 && (forall i :: 0 <= i < 4 ==> PresenceSafe(st[i]))
    && IsPortState(st[4], DEFAULT_DENY, map[k := ALLOW], true, map[FlowOf(p) := CtEntry(1, Established)])
  }

  ghost predicate OvertakenStates(st: seq<State>, p: PacketInfo, k: PortKey) {
    var ct := map[FlowOf(p) := CtEntry(1, Established)];
    && EstablishedStates(st, p, k)
    && IsPortState(st[5], DEFAULT_DENY, map[], true, ct)
    && IsPortState(st[6], DEFAULT_DENY, map[], false, ct)
    && IsPortState(st[7], DEFAULT_DENY, map[], true, ct)
    && IsPortState(st[8], DEFAULT_DENY, map[k := ALLOW], true, ct)
    && IsPortState(st[9], DEFAULT_DENY, map[k := ALLOW], true, map[FlowOf(p) := CtEntry(2, Closed)])
  }

  lemma RunEstablishes(st: seq<State>, log: Log, p: PacketInfo, fin: PacketInfo, k: PortKey)
    requires IsOvertakenRun(log, p, fin, k) && Trace(st, log)
    ensures EstablishedStates(st, p, k)
  {
    StartState(st, log);
    PolicyStep(st, log, 0, DEFAULT_DENY, DEFAULT_ALLOW, map[], false, map[]);
    FlagStep(st, log, 1, DEFAULT_DENY, map[], false, true, map[]);
    PutStep(st, log, 2, k, ALLOW, DEFAULT_DENY, map[], map[]);
    PacketStep(st, log, 3, p, 1, k, map[]);
  }

  lemma RunCloses(st: seq<State>, log: Log, p: PacketInfo, fin: PacketInfo, k: PortKey)
    requires IsOvertakenRun(log, p, fin, k) && Trace(st, log) && EstablishedStates(st, p, k)
    ensures OvertakenStates(st, p, k)
  {
    var ct := map[FlowOf(p) := CtEntry(1, Established)];
    DelStep(st, log, 4, k, DEFAULT_DENY, map[k := ALLOW], ct);
    assert map[k := ALLOW] - {k} == map[];
    FlagStep(st, log, 5, DEFAULT_DENY, map[], true, false, ct);
    FlagStep(st, log, 6, DEFAULT_DENY, map[], false, true, ct);
    PutStep(st, log, 7, k, ALLOW, DEFAULT_DENY, map[], ct);
    PacketStep(st, log, 8, fin, 2, k, ct);
  }

  lemma OvertakenStatesAreSafe(st: seq<State>, p: PacketInfo, k: PortKey)
    requires OvertakenStates(st, p, k)
    ensures forall i :: 0 <= i < 10 ==> PresenceSafe(st[i])
  {
    forall i | 0 <= i < 10 ensures PresenceSafe(st[i]) {
      assert i < 4 || i == 4 || i == 5 || i == 6 || i == 7 || i == 8 || i == 9;
    }
  }

  /** What the witnesses need to know of the run: the flow established, the rule gone, the flow closed. */
  predicate KeyStates(log: Log, p: PacketInfo, k: PortKey) {
    && |log| == 9
    && IsPortState(At(log, 4), DEFAULT_DENY, map[k := ALLOW], true, map[FlowOf(p) := CtEntry(1, Established)])
    && IsPortState(At(log, 7), DEFAULT_DENY, map[], true, map[FlowOf(p) := CtEntry(1, Established)])
    && IsPortState(At(log, 9), DEFAULT_DENY, map[k := ALLOW], true, map[FlowOf(p) := CtEntry(2, Closed)])
  }

  lemma StatesOfRun(st: seq<State>, log: Log, p: PacketInfo, k: PortKey)
    requires ShowsRun(st, log) && OvertakenStates(st, p, k)
    ensures KeyStates(log, p, k)
  {
    assert st[4] == At(log, 4);
    assert st[7] == At(log, 7);
    assert st[9] == At(log, 9);
  }

  lemma OvertakenRunStates(log: Log, p: PacketInfo, fin: PacketInfo, k: PortKey)
    requires IsOvertakenRun(log, p, fin, k)
    ensures AllSafe(log) && KeyStates(log, p, k)
  {
    var st := TraceOf(log);
    RunEstablishes(st, log, p, fin, k);
    RunCloses(st, log, p, fin, k);
    OvertakenStatesAreSafe(st, p, k);
    TraceIsSafe(st, log);
    StatesOfRun(st, log, p, k);
  }

  /** Reads around the block command: rules before its Put, the flow after the FIN. */
  lemma ReadsAreOvertaken(log: Log, p: PacketInfo, k: PortKey, r: Reads)
    requires KeyStates(log, p, k) && IsAllowed(p, k) && r == Reads(7, 7, 7, 7, 7, 7, 7, 9, 9)
    ensures Overtaken(log, 7, r, p)
  {
    EmptyTablesMiss(p);
    AllowedPasses(At(log, 9), p, k, map[FlowOf(p) := CtEntry(2, Closed)]);
    assert log[..9] == log;
  }

  lemma OvertakenRunExists() returns (log: Log, p: PacketInfo, fin: PacketInfo, k: PortKey)
    ensures IsOvertakenRun(log, p, fin, k) && p.saddr != p.daddr
  {
    p := PacketInfo(1, 2, PROTO_TCP, 3, 4, NO_FLAGS.(ack := true));
    fin := p.(flags := TcpFlags(true, false, false, true));
    k := PortKey(PROTO_TCP, 3, 4, 2);
    log := [
      PutPolicy(DEFAULT_DENY), PutFlags(PresenceWord(false, true)), PutPort(k, ALLOW), Packet(Some(p), 60, 1),
      DelPort(k), PutFlags(PresenceWord(false, false)),
      PutFlags(PresenceWord(false, true)), PutPort(k, ALLOW), Packet(Some(fin), 60, 2)];
  }

  lemma BlockIsOneCommand(log: Log, p: PacketInfo, fin: PacketInfo, k: PortKey)
    requires IsOvertakenRun(log, p, fin, k)
    ensures OneCommand(log, 6, 7, p)
  {
  }

  lemma OvertakenReadsAreTorn(log: Log, r: Reads, p: PacketInfo)
    requires AllSafe(log) && |log| == 9 && InOrder(6, r, 9) && OneCommand(log, 6, 7, p)
    requires Overtaken(log, 7, r, p)
    ensures !Linearizable(log, 6, p, TornVerdict(log, r, p))
  {
    OvertakenFitsNowhere(log, 6, 7, r, p);
  }

  /** Overtaken packets exist: between this one's rule lookups and its flow lookup, one block command
      allows its flow and a FIN closes it. */
  lemma OvertakenExists() returns (log: Log, m: nat, j: nat, r: Reads, p: PacketInfo)
    ensures AllSafe(log) && InOrder(m, r, |log|) && OneCommand(log, m, j, p)
    ensures Overtaken(log, j, r, p)
    ensures !Linearizable(log, m, p, TornVerdict(log, r, p))
  {
    var fin, k;
    m, j, r := 6, 7, Reads(7, 7, 7, 7, 7, 7, 7, 9, 9);
    log, p, fin, k := OvertakenRunExists();
    OvertakenRunStates(log, p, fin, k);
    BlockIsOneCommand(log, p, fin, k);
    ReadsAreOvertaken(log, p, k, r);
    OvertakenReadsAreTorn(log, r, p);
  }

  // ----- many commands: an exact and a wildcard rule ----------------------------------------------

  function Wild(k: PortKey): PortKey {
    k.(dport := 0, sport := 0)
  }

  /** No rules for the packet but one at its exact key and one at its wildcard key. */
  predicate IsExactAndWild(ports: PortTable, k: PortKey) {
    forall q :: q in ports ==> q == k || q == Wild(k)
  }

  lemma ProbesFindExactAndWild(a: PortTable, b: PortTable, c: PortTable, d: PortTable, p: PacketInfo, k: PortKey)
    requires IsExactAndWild(a, k) && IsExactAndWild(b, k) && IsExactAndWild(c, k) && IsExactAndWild(d, k)
    requires IsAllowed(p, k)
    ensures TornPort(a, b, c, d, p) == Better(Stored(a, k), Stored(d, Wild(k)))
  {
  }

  /** What an atomic packet finds. */
  lemma ExactAndWildVerdict(s: State, policy: u32, ports: PortTable, present: bool, p: PacketInfo, k: PortKey)
    requires IsPortState(s, policy, ports, present, map[]) && IsAllowed(p, k)
    requires IsExactAndWild(ports, k) && (present || ports == map[])
    ensures VerdictOf(s, Some(p)) == Decide(None, Better(Stored(ports, k), Stored(ports, Wild(k))), policy)
  {
    EmptyTablesMiss(p);
    ProbesFindExactAndWild(ports, ports, ports, ports, p, k);
    assert MatchedIp(s, p) == None;
    assert MatchedPort(s, p) == Better(Stored(ports, k), Stored(ports, Wild(k)));
  }

  /** What a packet finds that reads the exact rule at one time and the wildcard rule at another. */
  lemma ExactThenWild(log: Log, r: Reads, a: nat, b: nat, policy: u32, was: PortTable, now: PortTable,
                      p: PacketInfo, k: PortKey)
    requires a <= b <= |log| && r == Reads(a, a, a, a, b, b, b, b, b) && IsAllowed(p, k)
    requires IsPortState(At(log, a), policy, was, true, map[]) && IsExactAndWild(was, k)
    requires At(log, b).ports == now && IsExactAndWild(now, k)
    requires Better(Stored(was, k), Stored(now, Wild(k))).Some?
    ensures TornVerdict(log, r, p) == Decide(None, Better(Stored(was, k), Stored(now, Wild(k))), policy)
  {
    EmptyTablesMiss(p);
    ProbesFindExactAndWild(was, now, now, now, p, k);
    assert SeenIp(log, r, p) == None;
    assert SeenPort(log, r, p) == Better(Stored(was, k), Stored(now, Wild(k)));
  }

  const ALLOW_FIRST := Rule(ACTION_PASS, 10)
  const BLOCK_LAST := Rule(ACTION_DROP, 5)

  predicate IsTwoBlocks(log: Log, k: PortKey) {
    && |log| == 4
    && log[0] == PutFlags(PresenceWord(false, true)) && log[1] == PutPort(k, ALLOW_FIRST)
    && log[2] == PutFlags(PresenceWord(false, true)) && log[3] == PutPort(Wild(k), BLOCK_LAST)
  }

  ghost predicate TwoBlocksStates(st: seq<State>, k: PortKey) {
    && |st| == 5
    && IsPortState(st[0], DEFAULT_ALLOW, map[], false, map[])
    && IsPortState(st[1], DEFAULT_ALLOW, map[], true, map[])
    && IsPortState(st[2], DEFAULT_ALLOW, map[k := ALLOW_FIRST], true, map[])
    && IsPortState(st[3], DEFAULT_ALLOW, map[k := ALLOW_FIRST], true, map[])
    && IsPortState(st[4], DEFAULT_ALLOW, map[k := ALLOW_FIRST, Wild(k) := BLOCK_LAST], true, map[])
  }

  lemma RunBlocksTwice(st: seq<State>, log: Log, k: PortKey)
    requires Trace(st, log) && IsTwoBlocks(log, k)
    ensures TwoBlocksStates(st, k)
  {
    var one := map[k := ALLOW_FIRST];
    StartState(st, log);
    FlagStep(st, log, 0, DEFAULT_ALLOW, map[], false, true, map[]);
    PutStep(st, log, 1, k, ALLOW_FIRST, DEFAULT_ALLOW, map[], map[]);
    FlagStep(st, log, 2, DEFAULT_ALLOW, one, true, true, map[]);
    PutStep(st, log, 3, Wild(k), BLOCK_LAST, DEFAULT_ALLOW, one, map[]);
  }

  /** Each of the states is safe and lets the packet pass. */
  lemma TwoBlocksPass(st: seq<State>, p: PacketInfo, k: PortKey)
    requires TwoBlocksStates(st, k) && IsAllowed(p, k)
    ensures forall i :: 0 <= i < 5 ==> PresenceSafe(st[i]) && VerdictOf(st[i], Some(p)) == Pass
  {
    var one, two := map[k := ALLOW_FIRST], map[k := ALLOW_FIRST, Wild(k) := BLOCK_LAST];
    ExactAndWildVerdict(st[0], DEFAULT_ALLOW, map[], false, p, k);
    ExactAndWildVerdict(st[1], DEFAULT_ALLOW, map[], true, p, k);
    ExactAndWildVerdict(st[2], DEFAULT_ALLOW, one, true, p, k);
    ExactAndWildVerdict(st[3], DEFAULT_ALLOW, one, true, p, k);
    ExactAndWildVerdict(st[4], DEFAULT_ALLOW, two, true, p, k);
    forall i | 0 <= i < 5 ensures PresenceSafe(st[i]) && VerdictOf(st[i], Some(p)) == Pass {
      assert i == 0 || i == 1 || i == 2 || i == 3 || i == 4;
    }
  }

  lemma NoMomentGives(st: seq<State>, log: Log, m: nat, p: PacketInfo, v: Verdict)
    requires ShowsRun(st, log) && forall i :: m <= i <= |log| ==> VerdictOf(st[i], Some(p)) != v
    ensures !Linearizable(log, m, p, v)
  {
    forall i | m <= i <= |log| ensures VerdictOf(At(log, i), Some(p)) != v {
      assert st[i] == At(log, i);
    }
  }

  lemma TwoBlocksTear(st: seq<State>, log: Log, r: Reads, p: PacketInfo, k: PortKey)
    requires ShowsRun(st, log) && |log| == 4 && TwoBlocksStates(st, k) && IsAllowed(p, k)
    requires r == Reads(1, 1, 1, 1, 4, 4, 4, 4, 4)
    ensures TornVerdict(log, r, p) == Drop
  {
    assert st[1] == At(log, 1) && st[4] == At(log, 4);
    ExactThenWild(log, r, 1, 4, DEFAULT_ALLOW, map[], map[k := ALLOW_FIRST, Wild(k) := BLOCK_LAST], p, k);
  }

  /** Two block commands are one too many: under default-allow a packet that probes its exact key before
      the first and its wildcard key after the second is dropped, although at every moment it would pass. */
  lemma TwoCommandsTear() returns (log: Log, r: Reads, p: PacketInfo)
    ensures AllSafe(log) && InOrder(0, r, |log|)
    ensures TornVerdict(log, r, p) == Drop && !Linearizable(log, 0, p, Drop)
  {
    p, r := PacketInfo(1, 2, PROTO_TCP, 3, 4, NO_FLAGS), Reads(1, 1, 1, 1, 4, 4, 4, 4, 4);
    var k := PortKey(PROTO_TCP, 3, 4, 2);
    log := [PutFlags(PresenceWord(false, true)), PutPort(k, ALLOW_FIRST),
            PutFlags(PresenceWord(false, true)), PutPort(Wild(k), BLOCK_LAST)];
    var st := TraceOf(log);
    RunBlocksTwice(st, log, k);
    TwoBlocksPass(st, p, k);
    TraceIsSafe(st, log);
    NoMomentGives(st, log, 0, p, Drop);
    TwoBlocksTear(st, log, r, p, k);
  }

  // ----- a clear command --------------------------------------------------------------------------

  const ALLOW_LOW := Rule(ACTION_PASS, 1)
  const BLOCK_HIGH := Rule(ACTION_DROP, 9)

  /** Two block commands, then a clear command: the flag write that ends its IP half, and two deletions. */
  predicate IsClearRun(log: Log, k: PortKey) {
    && |log| == 8 && log[0] == PutPolicy(DEFAULT_DENY)
    && log[1] == PutFlags(PresenceWord(false, true)) && log[2] == PutPort(k, ALLOW_LOW)
    && log[3] == PutFlags(PresenceWord(false, true)) && log[4] == PutPort(Wild(k), BLOCK_HIGH)
    && log[5] == PutFlags(PresenceWord(false, true)) && log[6] == DelPort(k) && log[7] == DelPort(Wild(k))
  }

  ghost predicate ClearStates(st: seq<State>, k: PortKey) {
    var both := map[k := ALLOW_LOW, Wild(k) := BLOCK_HIGH];
    && |st| == 9 && (forall i :: 0 <= i < 5 ==> PresenceSafe(st[i]))
    && IsPortState(st[5], DEFAULT_DENY, both, true, map[])
    && IsPortState(st[6], DEFAULT_DENY, both, true, map[])
    && IsPortState(st[7], DEFAULT_DENY, map[Wild(k) := BLOCK_HIGH], true, map[])
    && IsPortState(st[8], DEFAULT_DENY, map[], true, map[])
  }

  lemma RunClears(st: seq<State>, log: Log, k: PortKey)
    requires Trace(st, log) && IsClearRun(log, k) && k != Wild(k)
    ensures ClearStates(st, k)
  {
    var one, both := map[k := ALLOW_LOW], map[k := ALLOW_LOW, Wild(k) := BLOCK_HIGH];
    StartState(st, log);
    PolicyStep(st, log, 0, DEFAULT_DENY, DEFAULT_ALLOW, map[], false, map[]);
    FlagStep(st, log, 1, DEFAULT_DENY, map[], false, true, map[]);
    PutStep(st, log, 2, k, ALLOW_LOW, DEFAULT_DENY, map[], map[]);
    FlagStep(st, log, 3, DEFAULT_DENY, one, true, true, map[]);
    PutStep(st, log, 4, Wild(k), BLOCK_HIGH, DEFAULT_DENY, one, map[]);
    FlagStep(st, log, 5, DEFAULT_DENY, both, true, true, map[]);
    DelStep(st, log, 6, k, DEFAULT_DENY, both, map[]);
    assert both - {k} == map[Wild(k) := BLOCK_HIGH];
    DelStep(st, log, 7, Wild(k), DEFAULT_DENY, map[Wild(k) := BLOCK_HIGH], map[]);
    assert map[Wild(k) := BLOCK_HIGH] - {Wild(k)} == map[];
  }

  /** Each state of the clear drops the packet. */
  lemma ClearDrops(st: seq<State>, p: PacketInfo, k: PortKey)
    requires ClearStates(st, k) && IsAllowed(p, k)
    ensures forall i :: 0 <= i < 9 ==> PresenceSafe(st[i])
    ensures forall i :: 5 <= i < 9 ==> VerdictOf(st[i], Some(p)) == Drop
  {
    var both := map[k := ALLOW_LOW, Wild(k) := BLOCK_HIGH];
    ExactAndWildVerdict(st[5], DEFAULT_DENY, both, true, p, k);
    ExactAndWildVerdict(st[6], DEFAULT_DENY, both, true, p, k);
    ExactAndWildVerdict(st[7], DEFAULT_DENY, map[Wild(k) := BLOCK_HIGH], true, p, k);
    ExactAndWildVerdict(st[8], DEFAULT_DENY, map[], true, p, k);
    forall i | 5 <= i < 9 ensures VerdictOf(st[i], Some(p)) == Drop {
      assert i == 5 || i == 6 || i == 7 || i == 8;
    }
    forall i | 0 <= i < 9 ensures PresenceSafe(st[i]) {
      assert i < 5 || i == 5 || i == 6 || i == 7 || i == 8;
    }
  }

  lemma ClearReads(st: seq<State>, log: Log, r: Reads, p: PacketInfo, k: PortKey)
    requires ShowsRun(st, log) && |log| == 8 && ClearStates(st, k) && IsAllowed(p, k)
    requires r == Reads(5, 5, 5, 5, 8, 8, 8, 8, 8)
    ensures TornVerdict(log, r, p) == Pass
  {
    assert st[5] == At(log, 5) && st[8] == At(log, 8);
    ExactThenWild(log, r, 5, 8, DEFAULT_DENY, map[k := ALLOW_LOW, Wild(k) := BLOCK_HIGH], map[], p, k);
  }

  /** The port half of a clear command can tear: a packet that probes its exact key before the clear and
      its wildcard key after it passes under default-deny, although every moment of the clear drops it. */
  lemma ClearTears() returns (log: Log, m: nat, r: Reads, p: PacketInfo)
    ensures AllSafe(log) && InOrder(m, r, |log|)
    ensures forall i :: m <= i < |log| ==> log[i].PutFlags? || log[i].DelPort?
    ensures TornVerdict(log, r, p) == Pass && !Linearizable(log, m, p, Pass)
  {
    m, r := 5, Reads(5, 5, 5, 5, 8, 8, 8, 8, 8);
    p := PacketInfo(1, 2, PROTO_TCP, 3, 4, NO_FLAGS);
    var k := PortKey(PROTO_TCP, 3, 4, 2);
    log := [
      PutPolicy(DEFAULT_DENY), PutFlags(PresenceWord(false, true)), PutPort(k, ALLOW_LOW),
      PutFlags(PresenceWord(false, true)), PutPort(Wild(k), BLOCK_HIGH),
      PutFlags(PresenceWord(false, true)), DelPort(k), DelPort(Wild(k))];
    var st := TraceOf(log);
    RunClears(st, log, k);
    ClearDrops(st, p, k);
    TraceIsSafe(st, log);
    NoMomentGives(st, log, m, p, Pass);
    ClearReads(st, log, r, p, k);
  }
}
