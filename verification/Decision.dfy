/** The packet program's whole decision from nine separate reads. */
module Decision {
  import opened Wire
  import opened Policy
  import opened Datapath
  import opened Linearize

  /** firewall_prog's verdict on a parsed packet from its nine reads. */
  function TornVerdict(log: Log, r: Reads, p: PacketInfo): Verdict
    requires InOrder(0, r, |log|)
  {
    var ip, port, policy := SeenIp(log, r, p), SeenPort(log, r, p), At(log, r.policy).policy;
    if ip.Some? || port.Some? then Decide(ip, port, policy)
    else if policy == DEFAULT_DENY && p.protocol == PROTO_TCP && CtIsEstablished(At(log, r.ct).ct, p) then Pass
    else DefaultVerdict(policy)
  }

  /** A change of a rule that the packet could match, or of the default policy. */
  predicate ConfigEvent(e: Event, p: PacketInfo) {
    Concerns(e, p) || e.PutPolicy?
  }

  /** At most one command that matters to the packet takes effect in the window: event `j`, or none when `j` is
      the window's end. */
  ghost predicate OneCommand(log: Log, m: nat, j: nat, p: PacketInfo) {
    && m <= j <= |log|
    && forall i :: m <= i < |log| && i != j ==> !ConfigEvent(log[i], p)
  }

  /** Some atomic packet of the window gets verdict `v`. */
  ghost predicate Linearizable(log: Log, m: nat, p: PacketInfo, v: Verdict) {
    exists i :: m <= i <= |log| && VerdictOf(At(log, i), Some(p)) == v
  }

  /** The packet found no rule, then a command came that lets it pass, and its flow, established until
      then, ended before the packet looked it up: it missed both reasons to pass. */
  predicate Overtaken(log: Log, j: nat, r: Reads, p: PacketInfo)
    requires InOrder(0, r, |log|) && j <= |log|
  {
    && SeenIp(log, r, p).None? && SeenPort(log, r, p).None?
    && At(log, r.policy).policy == DEFAULT_DENY && p.protocol == PROTO_TCP
    && CtIsEstablished(At(log, j).ct, p) && !CtIsEstablished(At(log, r.ct).ct, p)
    && VerdictOf(Replay(log), Some(p)) == Pass
  }

  lemma {:induction false} PolicyStable(log: Log, m: nat, n: nat)
    requires m <= n <= |log|
    requires forall i :: m <= i < n ==> !log[i].PutPolicy?
    ensures At(log, n).policy == At(log, m).policy
    decreases n
  {
    if m < n {
      PolicyStable(log, m, n - 1);
      AtNext(log, n - 1);
    }
  }

  /** The packet collects the same rules in both states. */
  predicate SamePair(s: State, t: State, p: PacketInfo) {
    MatchedIp(s, p) == MatchedIp(t, p) && MatchedPort(s, p) == MatchedPort(t, p)
  }

  lemma SamePartSamePair(log: Log, m: nat, n: nat, p: PacketInfo)
    requires AllSafe(log) && m <= |log| && n <= |log|
    requires IpsAt(log, m, p) == IpsAt(log, n, p) && PortsAt(log, m, p) == PortsAt(log, n, p)
    ensures SamePair(At(log, n), At(log, m), p)
  {
    OwnPartDecides(log, m, p);
    OwnPartDecides(log, n, p);
    SafeFlagsInvisible(At(log, m), p);
    SafeFlagsInvisible(At(log, n), p);
  }

  lemma ConfigBetween(log: Log, m: nat, n: nat, p: PacketInfo)
    requires AllSafe(log) && m <= n <= |log|
    requires forall i :: m <= i < n ==> !ConfigEvent(log[i], p)
    ensures At(log, n).policy == At(log, m).policy && SamePair(At(log, n), At(log, m), p)
  {
    StableBetween(log, m, n, p);
    PolicyStable(log, m, n);
    SamePartSamePair(log, m, n, p);
  }

  /** Every state of the window shows the packet the configuration from before or from after the command. */
  lemma ConfigInWindow(log: Log, m: nat, j: nat, i: nat, p: PacketInfo)
    requires AllSafe(log) && OneCommand(log, m, j, p) && m <= i <= |log|
    ensures i <= j ==> At(log, i).policy == At(log, m).policy && SamePair(At(log, i), At(log, m), p)
    ensures j < i ==> At(log, i).policy == Replay(log).policy && SamePair(At(log, i), Replay(log), p)
  {
    if i <= j {
      ConfigBetween(log, m, i, p);
    } else {
      ConfigBetween(log, i, |log|, p);
      assert log[..|log|] == log;
    }
  }

  lemma FlowSharesRules(ips: IpTable, ports: PortTable, p: PacketInfo, q: PacketInfo)
    requires FlowOf(p) == FlowOf(q)
    ensures IpLookup(ips, p) == IpLookup(ips, q) && PortLookup(ports, p) == PortLookup(ports, q)
  {
    assert forall d, s :: Probe(ports, p, d, s) == Probe(ports, q, d, s);
  }

  /** Packets of one flow differ in their TCP flags alone, which the verdict does not look at. */
  lemma FlowSharesVerdict(s: State, p: PacketInfo, q: PacketInfo)
    requires FlowOf(p) == FlowOf(q)
    ensures VerdictOf(s, Some(p)) == VerdictOf(s, Some(q))
  {
    FlowSharesRules(s.ips, s.ports, p, q);
    assert MatchedIp(s, p) == MatchedIp(s, q) && MatchedPort(s, p) == MatchedPort(s, q);
  }

  /** While a packet of its flow would be dropped, a flow does not become established. */
  lemma DroppedFlowStays(s: State, e: Event, p: PacketInfo)
    requires !CtIsEstablished(s.ct, p) && VerdictOf(s, Some(p)) == Drop
    ensures !CtIsEstablished(Apply(s, e).ct, p)
  {
    if e.Packet? && e.info.Some? && FlowOf(e.info.value) == FlowOf(p) {
      FlowSharesVerdict(s, p, e.info.value);
      assert !Tracked(s, e.info);
    }
  }

  lemma {:induction false} EstablishedBefore(log: Log, a: nat, b: nat, p: PacketInfo)
    requires a <= b <= |log|
    requires forall i :: a <= i < b && !CtIsEstablished(At(log, i).ct, p) ==> VerdictOf(At(log, i), Some(p)) == Drop
    requires CtIsEstablished(At(log, b).ct, p)
    ensures CtIsEstablished(At(log, a).ct, p)
    decreases b
  {
    if a < b {
      assert log[..b][..b - 1] == log[..b - 1];
      if !CtIsEstablished(At(log, b - 1).ct, p) {
        DroppedFlowStays(At(log, b - 1), log[b - 1], p);
      }
      EstablishedBefore(log, a, b - 1, p);
    }
  }

  lemma PrefixKeepsReads(log: Log, n: nat, r: Reads, p: PacketInfo)
    requires InOrder(0, r, n) && n <= |log|
    ensures SeenIp(log[..n], r, p) == SeenIp(log, r, p) && SeenPort(log[..n], r, p) == SeenPort(log, r, p)
  {
    var cut := log[..n];
    assert cut[..r.flags] == log[..r.flags] && cut[..r.src] == log[..r.src] && cut[..r.dst] == log[..r.dst];
    assert cut[..r.exact] == log[..r.exact] && cut[..r.dportOnly] == log[..r.dportOnly];
    assert cut[..r.sportOnly] == log[..r.sportOnly] && cut[..r.neither] == log[..r.neither];
  }

  /** Up to the flow lookup, the collected pair is that of the window's start or of that lookup's time. */
  lemma PairAtFlowLookup(log: Log, m: nat, j: nat, r: Reads, p: PacketInfo)
    requires AllSafe(log) && InOrder(m, r, |log|) && OneCommand(log, m, j, p)
    ensures
      || (SeenIp(log, r, p), SeenPort(log, r, p)) == (MatchedIp(At(log, m), p), MatchedPort(At(log, m), p))
      || (SeenIp(log, r, p), SeenPort(log, r, p)) == (MatchedIp(At(log, r.ct), p), MatchedPort(At(log, r.ct), p))
  {
    var cut := log[..r.ct];
    assert cut[..m] == log[..m];
    SafePrefix(log, r.ct);
    PrefixKeepsReads(log, r.ct, r, p);
    LookupsLinearize(cut, m, r, p);
  }

  /** Before the command, an unmatched packet under default-deny passes exactly along its flow, which can
      only have been lost since. */
  lemma UnmatchedUntil(log: Log, m: nat, j: nat, a: nat, b: nat, p: PacketInfo)
    requires AllSafe(log) && OneCommand(log, m, j, p) && m <= a <= b <= |log| && (b <= j || j < a)
    requires !RuleMatched(At(log, a), p) && At(log, a).policy == DEFAULT_DENY && p.protocol == PROTO_TCP
    ensures VerdictOf(At(log, b), Some(p)) == if CtIsEstablished(At(log, b).ct, p) then Pass else Drop
    ensures CtIsEstablished(At(log, b).ct, p) ==> CtIsEstablished(At(log, a).ct, p)
  {
    ConfigInWindow(log, m, j, a, p);
    forall i | a <= i <= b
      ensures VerdictOf(At(log, i), Some(p)) == if CtIsEstablished(At(log, i).ct, p) then Pass else Drop
    {
      ConfigInWindow(log, m, j, i, p);
    }
    if CtIsEstablished(At(log, b).ct, p) { EstablishedBefore(log, a, b, p); }
  }

  /** A command changes rules or the policy, never both. */
  lemma CommandIsOneKind(log: Log, m: nat, j: nat, p: PacketInfo)
    requires AllSafe(log) && OneCommand(log, m, j, p)
    ensures Replay(log).policy == At(log, m).policy || SamePair(Replay(log), At(log, m), p)
  {
    assert log[..|log|] == log;
    if j < |log| && log[j].PutPolicy? {
      StableBetween(log, m, |log|, p);
      SamePartSamePair(log, m, |log|, p);
    } else {
      PolicyStable(log, m, |log|);
    }
  }

  /** An overtaken packet is dropped although every atomic packet of the window passes. */
  lemma OvertakenFitsNowhere(log: Log, m: nat, j: nat, r: Reads, p: PacketInfo)
    requires AllSafe(log) && InOrder(m, r, |log|) && OneCommand(log, m, j, p)
    requires Overtaken(log, j, r, p)
    ensures TornVerdict(log, r, p) == Drop
    ensures !Linearizable(log, m, p, Drop)
  {
    PairAtFlowLookup(log, m, j, r, p);
    CommandIsOneKind(log, m, j, p);
    ConfigInWindow(log, m, j, r.policy, p);
    ConfigInWindow(log, m, j, r.ct, p);
    assert log[..|log|] == log;
    if r.ct <= j {
      UnmatchedUntil(log, m, j, r.ct, j, p);
    } else if !RuleMatched(Replay(log), p) && Replay(log).policy == DEFAULT_DENY {
      UnmatchedUntil(log, m, j, r.ct, |log|, p);
    } else {
      forall i | m <= i <= |log| ensures VerdictOf(At(log, i), Some(p)) == Pass {
        ConfigInWindow(log, m, j, i, p);
        if i <= j { UnmatchedUntil(log, m, j, i, j, p); }
      }
    }
  }

  /** A flow that becomes established after the command does so because the command lets it pass. */
  lemma GainedFlowPasses(log: Log, m: nat, j: nat, n: nat, p: PacketInfo)
    requires AllSafe(log) && OneCommand(log, m, j, p) && j < n <= |log|
    requires VerdictOf(At(log, j), Some(p)) == Drop && !CtIsEstablished(At(log, j).ct, p)
    requires RuleMatched(At(log, n), p) || At(log, n).policy != DEFAULT_DENY
    requires CtIsEstablished(At(log, n).ct, p)
    ensures VerdictOf(At(log, n), Some(p)) == Pass
  {
    if VerdictOf(At(log, n), Some(p)) == Drop {
      ConfigInWindow(log, m, j, n, p);
      forall i | j < i < n ensures VerdictOf(At(log, i), Some(p)) == Drop {
        ConfigInWindow(log, m, j, i, p);
      }
      EstablishedBefore(log, j, n, p);
    }
  }

  /** The case in which the flow decides: no rule was seen under default-deny, and then the command came. */
  lemma FlowFits(log: Log, m: nat, j: nat, n: nat, p: PacketInfo) returns (i: nat)
    requires AllSafe(log) && OneCommand(log, m, j, p) && j < n <= |log|
    requires !RuleMatched(At(log, m), p) && At(log, m).policy == DEFAULT_DENY && p.protocol == PROTO_TCP
    requires RuleMatched(At(log, n), p) || At(log, n).policy != DEFAULT_DENY
    requires CtIsEstablished(At(log, j).ct, p) && !CtIsEstablished(At(log, n).ct, p) ==>
      VerdictOf(At(log, |log|), Some(p)) == Drop
    ensures m <= i <= |log|
    ensures VerdictOf(At(log, i), Some(p)) == if CtIsEstablished(At(log, n).ct, p) then Pass else Drop
  {
    UnmatchedUntil(log, m, j, m, j, p);
    var before, after := CtIsEstablished(At(log, j).ct, p), CtIsEstablished(At(log, n).ct, p);
    if before == after {
      i := j;
    } else if before {
      i := |log|;
    } else {
      i := n;
      GainedFlowPasses(log, m, j, n, p);
    }
  }

  /** The packet collected the pair that an atomic packet collects at `i`. */
  predicate CollectsAt(log: Log, i: nat, r: Reads, p: PacketInfo)
    requires InOrder(0, r, |log|) && i <= |log|
  {
    SeenIp(log, r, p) == MatchedIp(At(log, i), p) && SeenPort(log, r, p) == MatchedPort(At(log, i), p)
  }

  /** With a rule in hand, or with the flow lookup in the same configuration, the pair says it all. */
  lemma PairDecides(log: Log, i: nat, r: Reads, p: PacketInfo)
    requires InOrder(0, r, |log|) && i <= |log| && CollectsAt(log, i, r, p)
    requires
      || RuleMatched(At(log, i), p)
      || (i == r.ct && At(log, r.policy).policy == At(log, i).policy)
    ensures VerdictOf(At(log, i), Some(p)) == TornVerdict(log, r, p)
  {
  }

  /** The remaining case: no rule was seen, and the command came before the flow lookup. */
  lemma UnseenFits(log: Log, m: nat, j: nat, r: Reads, p: PacketInfo) returns (i: nat)
    requires AllSafe(log) && InOrder(m, r, |log|) && OneCommand(log, m, j, p)
    requires !Overtaken(log, j, r, p) && SeenIp(log, r, p).None? && SeenPort(log, r, p).None?
    requires CollectsAt(log, m, r, p) || CollectsAt(log, r.ct, r, p)
    requires !(CollectsAt(log, r.ct, r, p) && At(log, r.policy).policy == At(log, r.ct).policy)
    ensures m <= i <= |log| && VerdictOf(At(log, i), Some(p)) == TornVerdict(log, r, p)
  {
    var policy := At(log, r.policy).policy;
    ConfigInWindow(log, m, j, r.policy, p);
    ConfigInWindow(log, m, j, r.ct, p);
    CommandIsOneKind(log, m, j, p);
    assert !RuleMatched(At(log, m), p) && At(log, m).policy == policy && j < r.ct;
    if policy == DEFAULT_DENY && p.protocol == PROTO_TCP {
      assert log[..|log|] == log;
      i := FlowFits(log, m, j, r.ct, p);
    } else {
      i := m;
    }
  }

  lemma NotOvertakenFits(log: Log, m: nat, j: nat, r: Reads, p: PacketInfo) returns (i: nat)
    requires AllSafe(log) && InOrder(m, r, |log|) && OneCommand(log, m, j, p)
    requires !Overtaken(log, j, r, p)
    ensures m <= i <= |log| && VerdictOf(At(log, i), Some(p)) == TornVerdict(log, r, p)
  {
    PairAtFlowLookup(log, m, j, r, p);
    var late := CollectsAt(log, r.ct, r, p);
    if SeenIp(log, r, p).Some? || SeenPort(log, r, p).Some? {
      i := if late then r.ct else m;
      PairDecides(log, i, r, p);
    } else if late && At(log, r.policy).policy == At(log, r.ct).policy {
      i := r.ct;
      PairDecides(log, i, r, p);
    } else {
      i := UnseenFits(log, m, j, r, p);
    }
  }

  /** The flow is deleted, or closed by a FIN or RST. */
  predicate Ends(e: Event, k: Flow) {
    || (e.DelCt? && e.flow == k)
    || (e.Packet? && e.info.Some? && FlowOf(e.info.value) == k && (e.info.value.flags.fin || e.info.value.flags.rst))
  }

  lemma {:induction false} EstablishedUntilEnd(log: Log, a: nat, b: nat, p: PacketInfo) returns (i: nat)
    requires a <= b <= |log|
    requires CtIsEstablished(At(log, a).ct, p) && !CtIsEstablished(At(log, b).ct, p)
    ensures a <= i < b && Ends(log[i], FlowOf(p))
    decreases b
  {
    assert log[..b][..b - 1] == log[..b - 1];
    if CtIsEstablished(At(log, b - 1).ct, p) {
      i := b - 1;
    } else {
      i := EstablishedUntilEnd(log, a, b - 1, p);
    }
  }

  /** So only a packet whose own flow ends between the command and the flow lookup can be torn. */
  lemma OvertakenFlowEnds(log: Log, m: nat, j: nat, r: Reads, p: PacketInfo) returns (i: nat)
    requires AllSafe(log) && InOrder(m, r, |log|) && OneCommand(log, m, j, p)
    requires Overtaken(log, j, r, p)
    ensures j <= i < r.ct && Ends(log[i], FlowOf(p))
  {
    if r.ct <= j {
      PairAtFlowLookup(log, m, j, r, p);
      ConfigInWindow(log, m, j, r.policy, p);
      ConfigInWindow(log, m, j, r.ct, p);
      UnmatchedUntil(log, m, j, r.ct, j, p);
      assert false;
    }
    i := EstablishedUntilEnd(log, j, r.ct, p);
  }

  /** Linearizability of the whole decision. While at most one command takes effect that matters to the
      packet, it gets the verdict of an atomic packet at some moment of its reads, unless it is overtaken -
      and only then not. */
  lemma TornVerdictIsAtomic(log: Log, m: nat, j: nat, r: Reads, p: PacketInfo)
    requires AllSafe(log) && InOrder(m, r, |log|) && OneCommand(log, m, j, p)
    ensures Linearizable(log, m, p, TornVerdict(log, r, p)) <==> !Overtaken(log, j, r, p)
  {
    if Overtaken(log, j, r, p) {
      OvertakenFitsNowhere(log, m, j, r, p);
    } else {
      var i := NotOvertakenFits(log, m, j, r, p);
    }
  }

  /** So it does whenever its own flow does not end between the command and its flow lookup. */
  lemma UnendedFlowIsAtomic(log: Log, m: nat, j: nat, r: Reads, p: PacketInfo)
    requires AllSafe(log) && InOrder(m, r, |log|) && OneCommand(log, m, j, p)
    requires forall i :: j <= i < r.ct ==> !Ends(log[i], FlowOf(p))
    ensures Linearizable(log, m, p, TornVerdict(log, r, p))
  {
    if Overtaken(log, j, r, p) {
      var i := OvertakenFlowEnds(log, m, j, r, p);
    }
    TornVerdictIsAtomic(log, m, j, r, p);
  }
}
