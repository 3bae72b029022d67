/** What the flow table means over whole runs. */
module Conntrack {
  import opened Wire
  import opened Policy
  import opened Datapath
  import opened Linearize
  import opened Witnesses

  /** A packet that the program recorded for its flow. */
  datatype Accepted = Accepted(flags: TcpFlags, now: u64, byRule: bool)

  /** A TCP packet of flow `k` that passed under default-deny. */
  predicate Records(s: State, e: Event, k: Flow) {
    && e.Packet? && e.info.Some? && e.info.value.protocol == PROTO_TCP && FlowOf(e.info.value) == k
    && s.policy == DEFAULT_DENY && VerdictOf(s, e.info) == Pass
  }

  function Receipt(s: State, e: Event): Accepted
    requires e.Packet? && e.info.Some?
  {
    Accepted(e.info.value.flags, e.now, RuleMatched(s, e.info.value))
  }

  /** The packets recorded for flow `k` since its entry was created, oldest first; [] without an entry. */
  function Lifetime(log: Log, k: Flow): seq<Accepted> {
    if log == [] then []
    else
      var n := |log| - 1;
      var s, e, before := Replay(log[..n]), log[n], Lifetime(log[..n], k);
      if e.DelCt? && e.flow == k then []
      else if Records(s, e, k) && (before != [] || |s.ct| < MAX_FLOWS) then before + [Receipt(s, e)]
      else before
  }

  ghost predicate Tears(a: Accepted) {
    a.flags.fin || a.flags.rst
  }

  /** The state as a property of the recorded packets alone. */
  ghost function StateOf(h: seq<Accepted>): CtState
    requires h != []
  {
    if exists i :: 0 <= i < |h| && Tears(h[i]) then Closed
    else if !h[0].flags.syn || exists i :: 1 <= i < |h| && h[i].flags.ack then Established
    else New
  }

  lemma StateOfExtend(h: seq<Accepted>, a: Accepted)
    ensures StateOf([a]) == NextEntry(None, a.flags, a.now).state
    ensures h != [] ==> StateOf(h + [a]) == NextEntry(Some(CtEntry(0, StateOf(h))), a.flags, a.now).state
  {
    assert Tears([a][0]) == Tears(a);
    if h != [] {
      var g := h + [a];
      assert g[|h|] == a && forall i :: 0 <= i < |h| ==> g[i] == h[i];
      if i :| 0 <= i < |h| && Tears(h[i]) { assert Tears(g[i]); }
      if i :| 0 <= i < |g| && Tears(g[i]) { assert i < |h| ==> Tears(h[i]); }
      if i :| 1 <= i < |h| && h[i].flags.ack { assert g[i].flags.ack; }
      if i :| 1 <= i < |g| && g[i].flags.ack { assert i < |h| ==> h[i].flags.ack; }
    }
  }

  /** One event's effect on one flow. */
  lemma EntryStep(s: State, e: Event, k: Flow)
    ensures Entry(Apply(s, e).ct, k) ==
      if e.DelCt? && e.flow == k then None
      else if Records(s, e, k) && (k in s.ct || |s.ct| < MAX_FLOWS) then
        Some(NextEntry(Entry(s.ct, k), e.info.value.flags, e.now))
      else Entry(s.ct, k)
  {
  }

  /** The entry that a lifetime leaves. */
  ghost function EntryOf(h: seq<Accepted>): Option<CtEntry> {
    if h == [] then None else Some(CtEntry(h[|h| - 1].now, StateOf(h)))
  }

  lemma EntryOfExtend(h: seq<Accepted>, a: Accepted)
    ensures EntryOf(h + [a]) == Some(NextEntry(EntryOf(h), a.flags, a.now))
  {
    StateOfExtend(h, a);
    assert [] + [a] == [a];
  }

  lemma LifetimeStep(log: Log, k: Flow)
    requires log != []
    ensures var s, e, h := Replay(log[..|log| - 1]), log[|log| - 1], Lifetime(log[..|log| - 1], k);
      Lifetime(log, k) ==
        if e.DelCt? && e.flow == k then []
        else if Records(s, e, k) && (h != [] || |s.ct| < MAX_FLOWS) then h + [Receipt(s, e)]
        else h
  {
  }

  lemma ClosedFormStep(s: State, e: Event, k: Flow, h: seq<Accepted>)
    requires Entry(s.ct, k) == EntryOf(h)
    ensures Entry(Apply(s, e).ct, k) == EntryOf(
      if e.DelCt? && e.flow == k then []
      else if Records(s, e, k) && (h != [] || |s.ct| < MAX_FLOWS) then h + [Receipt(s, e)]
      else h)
  {
    EntryStep(s, e, k);
    if Records(s, e, k) { EntryOfExtend(h, Receipt(s, e)); }
  }

  lemma {:induction false} EntryIsOfLifetime(log: Log, k: Flow)
    ensures Entry(Replay(log).ct, k) == EntryOf(Lifetime(log, k))
    decreases |log|
  {
    if log != [] {
      var n := |log| - 1;
      EntryIsOfLifetime(log[..n], k);
      ClosedFormStep(Replay(log[..n]), log[n], k, Lifetime(log[..n], k));
      LifetimeStep(log, k);
    }
  }

  /** Closed form: after every run, a flow has an entry exactly when its lifetime is non-empty, the
      entry holds the time of the last recorded packet, and its state is StateOf the lifetime. */
  lemma EntryIsClosedForm(log: Log, k: Flow)
    ensures k in Replay(log).ct <==> Lifetime(log, k) != []
    ensures k in Replay(log).ct ==>
      var h := Lifetime(log, k);
      Replay(log).ct[k] == CtEntry(h[|h| - 1].now, StateOf(h))
  {
    EntryIsOfLifetime(log, k);
  }

  /** A lifetime begins with a packet that a rule admitted. */
  lemma {:induction false} LifetimeStartsWithRule(log: Log, k: Flow)
    ensures Lifetime(log, k) != [] ==> Lifetime(log, k)[0].byRule
    decreases |log|
  {
    if log != [] {
      LifetimeStartsWithRule(log[..|log| - 1], k);
      EntryIsClosedForm(log[..|log| - 1], k);
    }
  }

  /** Event `i` is a packet of flow `k` that a rule admitted under default-deny. */
  ghost predicate RuleAdmits(log: Log, i: nat, k: Flow)
    requires i < |log|
  {
    var s := Replay(log[..i]);
    Records(s, log[i], k) && RuleMatched(s, log[i].info.value)
  }

  /** ... and the flow was not deleted since. */
  ghost predicate AdmittedAt(log: Log, i: nat, k: Flow) {
    && i < |log| && RuleAdmits(log, i, k)
    && forall j :: i < j < |log| && log[j].DelCt? ==> log[j].flow != k
  }

  lemma FirstOfLifetimeIsAdmission(log: Log, k: Flow)
    requires log != []
    ensures Lifetime(log[..|log| - 1], k) == [] && Lifetime(log, k) != [] ==> AdmittedAt(log, |log| - 1, k)
  {
    var n := |log| - 1;
    if Lifetime(log[..n], k) == [] && Lifetime(log, k) != [] {
      assert Lifetime(log, k) == [] + [Receipt(Replay(log[..n]), log[n])];
      LifetimeStartsWithRule(log, k);
    }
  }

  lemma AdmissionExtends(log: Log, i: nat, k: Flow)
    requires log != [] && (log[|log| - 1].DelCt? ==> log[|log| - 1].flow != k)
    ensures AdmittedAt(log[..|log| - 1], i, k) ==> AdmittedAt(log, i, k)
  {
    var n := |log| - 1;
    assert forall j :: 0 <= j < n ==> log[..n][j] == log[j];
    if i < n { assert log[..n][..i] == log[..i]; }
  }

  lemma {:induction false} LifetimeHasAdmission(log: Log, k: Flow) returns (i: nat)
    requires Lifetime(log, k) != []
    ensures AdmittedAt(log, i, k)
    decreases |log|
  {
    if Lifetime(log[..|log| - 1], k) == [] {
      FirstOfLifetimeIsAdmission(log, k);
      i := |log| - 1;
    } else {
      i := LifetimeHasAdmission(log[..|log| - 1], k);
      AdmissionExtends(log, i, k);
    }
  }

  /** No fabricated flows. Under default-deny an unmatched TCP packet passes exactly when its own
      5-tuple's lifetime ends in ESTABLISHED; and then an earlier packet of that very 5-tuple was
      admitted by a rule and the flow was not deleted since. */
  lemma UnmatchedPassesIffEstablished(log: Log, p: PacketInfo)
    requires Replay(log).policy == DEFAULT_DENY && !RuleMatched(Replay(log), p) && p.protocol == PROTO_TCP
    ensures VerdictOf(Replay(log), Some(p)) == Pass <==>
      Lifetime(log, FlowOf(p)) != [] && StateOf(Lifetime(log, FlowOf(p))) == Established
    ensures VerdictOf(Replay(log), Some(p)) == Pass ==>
      exists i: nat :: AdmittedAt(log, i, FlowOf(p))
  {
    EntryIsClosedForm(log, FlowOf(p));
    if VerdictOf(Replay(log), Some(p)) == Pass {
      var i := LifetimeHasAdmission(log, FlowOf(p));
    }
  }

  // ----- replies ------------------------------------------------------------------------

  /** The 5-tuple of the packets that answer `k`. */
  function Reverse(k: Flow): Flow {
    Flow(k.daddr, k.saddr, k.dport, k.sport, k.protocol)
  }

  /** A reply that no rule admits passes under default-deny exactly when its own 5-tuple's lifetime ends
      in ESTABLISHED; the flow it answers makes no difference, whatever its entry. */
  lemma ReplyPassesIffOwnFlow(log: Log, k: Flow, e: CtEntry, reply: PacketInfo)
    requires FlowOf(reply) == Reverse(k) && reply.protocol == PROTO_TCP
    requires Replay(log).policy == DEFAULT_DENY && !RuleMatched(Replay(log), reply)
    ensures VerdictOf(Replay(log), Some(reply)) == Pass <==>
      Lifetime(log, Reverse(k)) != [] && StateOf(Lifetime(log, Reverse(k))) == Established
    ensures k != Reverse(k) ==>
      VerdictOf(Replay(log).(ct := Replay(log).ct[k := e]), Some(reply)) == VerdictOf(Replay(log), Some(reply))
  {
    UnmatchedPassesIffEstablished(log, reply);
    var s, t := Replay(log), Replay(log).(ct := Replay(log).ct[k := e]);
    assert MatchedIp(t, reply) == MatchedIp(s, reply) && MatchedPort(t, reply) == MatchedPort(s, reply);
  }

  /** An established flow whose reply is dropped. */
  lemma ReplyIsNotCovered() returns (log: Log, p: PacketInfo, reply: PacketInfo)
    ensures AllSafe(log) && Replay(log).policy == DEFAULT_DENY
    ensures CtIsEstablished(Replay(log).ct, p) && VerdictOf(Replay(log), Some(p)) == Pass
    ensures FlowOf(reply) == Reverse(FlowOf(p)) && reply.protocol == PROTO_TCP
    ensures !RuleMatched(Replay(log), reply) && VerdictOf(Replay(log), Some(reply)) == Drop
  {
    var full, fin, k;
    full, p, fin, k := OvertakenRunExists();
    OvertakenRunStates(full, p, fin, k);
    log := full[..4];
    reply := PacketInfo(p.daddr, p.saddr, PROTO_TCP, p.sport, p.dport, TcpFlags(false, true, false, true));
    SafePrefix(full, 4);
    AllowedPasses(At(full, 4), p, k, map[FlowOf(p) := CtEntry(1, Established)]);
    ReplyIsUnmatched(At(full, 4), p, reply, k);
  }

  lemma ReplyIsUnmatched(s: State, p: PacketInfo, reply: PacketInfo, k: PortKey)
    requires IsPortState(s, DEFAULT_DENY, map[k := ALLOW], true, map[FlowOf(p) := CtEntry(1, Established)])
    requires IsAllowed(p, k) && p.saddr != p.daddr && FlowOf(reply) == Reverse(FlowOf(p))
    ensures !RuleMatched(s, reply) && VerdictOf(s, Some(reply)) == Drop
  {
    EmptyTablesMiss(reply);
    assert MatchedIp(s, reply).None? && MatchedPort(s, reply).None?;
  }

  /** NEW before ESTABLISHED before CLOSED. */
  predicate NotBefore(was: CtState, now: CtState) {
    match was
    case New => true
    case Established => now != New
    case Closed => now == Closed
  }

  lemma StateStep(s: State, e: Event, k: Flow)
    requires k in s.ct && (e.DelCt? ==> e.flow != k)
    ensures k in Apply(s, e).ct && NotBefore(s.ct[k].state, Apply(s, e).ct[k].state)
  {
    EntryStep(s, e, k);
  }

  /** Between deletions an entry persists, its state never goes back, and CLOSED is final. */
  lemma {:induction false} RankNeverDrops(log: Log, m: nat, k: Flow)
    requires m <= |log| && k in Replay(log[..m]).ct
    requires forall j :: m <= j < |log| && log[j].DelCt? ==> log[j].flow != k
    ensures k in Replay(log).ct
    ensures NotBefore(Replay(log[..m]).ct[k].state, Replay(log).ct[k].state)
    ensures Replay(log[..m]).ct[k].state == Closed ==> Replay(log).ct[k].state == Closed
    ensures Replay(log[..m]).ct[k].state == Established ==> Replay(log).ct[k].state in {Established, Closed}
    decreases |log|
  {
    var n := |log| - 1;
    if m == |log| {
      assert log[..m] == log;
    } else {
      assert log[..n][..m] == log[..m];
      RankNeverDrops(log[..n], m, k);
      StateStep(Replay(log[..n]), log[n], k);
    }
  }

  // ----- without rules ------------------------------------------------------------------

  /** With no rules left, a packet passes under default-deny only along a flow that already exists. */
  lemma NoRulesNoNewFlows(s: State, e: Event)
    requires s.ips == map[] && s.ports == map[] && !e.PutIp? && !e.PutPort?
    ensures Apply(s, e).ct.Keys <= s.ct.Keys
    ensures Apply(s, e).ips == map[] && Apply(s, e).ports == map[]
  {
    if e.Packet? && Tracked(s, e.info) {
      EmptyTablesMiss(e.info.value);
      UnmatchedFlowExists(s, e.info.value);
    }
  }

  lemma UnmatchedFlowExists(s: State, p: PacketInfo)
    requires Tracked(s, Some(p)) && !RuleMatched(s, p)
    ensures FlowOf(p) in s.ct
  {
  }

  /** From the moment both tables are empty until the next rule is put, the flow table only shrinks,
      whatever packets arrive. */
  lemma {:induction false} FlowsOnlyShrink(log: Log, m: nat)
    requires m <= |log| && Replay(log[..m]).ips == map[] && Replay(log[..m]).ports == map[]
    requires forall i :: m <= i < |log| ==> !log[i].PutIp? && !log[i].PutPort?
    ensures Replay(log).ips == map[] && Replay(log).ports == map[]
    ensures Replay(log).ct.Keys <= Replay(log[..m]).ct.Keys
    decreases |log|
  {
    if m == |log| {
      assert log[..m] == log;
    } else {
      var n := |log| - 1;
      assert log[..n][..m] == log[..m];
      FlowsOnlyShrink(log[..n], m);
      NoRulesNoNewFlows(Replay(log[..n]), log[n]);
    }
  }

  // ----- flow isolation ----------------------------------------------------------------

  /** Packets and deletions of flows other than `k`. */
  predicate Foreign(e: Event, k: Flow) {
    || (e.Packet? && (e.info.None? || FlowOf(e.info.value) != k))
    || (e.DelCt? && e.flow != k)
  }

  /** The part of a run that concerns flow `k`: its packets, its deletions, and rule changes. */
  function Project(log: Log, k: Flow): Log {
    if log == [] then []
    else
      var rest, e := Project(log[..|log| - 1], k), log[|log| - 1];
      if Foreign(e, k) then rest else rest + [e]
  }

  function Verdicts(log: Log, k: Flow): seq<Verdict> {
    if log == [] then []
    else
      var n := |log| - 1;
      var rest, e := Verdicts(log[..n], k), log[n];
      if e.Packet? && !Foreign(e, k) then rest + [VerdictOf(Replay(log[..n]), e.info)] else rest
  }

  ghost predicate NeverFull(log: Log) {
    forall n :: 0 <= n < |log| ==> |Replay(log[..n]).ct| < MAX_FLOWS
  }

  predicate AgreeOn(a: State, b: State, k: Flow) {
    && a.ips == b.ips && a.ports == b.ports && a.flags == b.flags && a.policy == b.policy
    && Entry(a.ct, k) == Entry(b.ct, k)
  }

  lemma AgreeingStatesDecideAlike(a: State, b: State, e: Event, k: Flow)
    requires AgreeOn(a, b, k) && !Foreign(e, k)
    requires |a.ct| < MAX_FLOWS && |b.ct| < MAX_FLOWS
    ensures e.Packet? ==> VerdictOf(a, e.info) == VerdictOf(b, e.info)
    ensures AgreeOn(Apply(a, e), Apply(b, e), k)
    ensures Apply(b, e).ct.Keys <= b.ct.Keys + {k}
  {
    if e.Packet? && e.info.Some? {
      var p := e.info.value;
      assert MatchedIp(a, p) == MatchedIp(b, p) && MatchedPort(a, p) == MatchedPort(b, p);
      assert CtIsEstablished(a.ct, p) == CtIsEstablished(b.ct, p);
    }
  }

  lemma ForeignStep(s: State, e: Event, k: Flow)
    requires Foreign(e, k)
    ensures AgreeOn(s, Apply(s, e), k)
  {
  }

  lemma SubsetOfSingleton(s: set<Flow>, k: Flow)
    requires s <= {k}
    ensures |s| < MAX_FLOWS
  {
    if k in s { assert s == {k}; } else { assert s == {}; }
  }

  lemma NeverFullPrefix(log: Log, n: nat)
    requires NeverFull(log) && n <= |log|
    ensures NeverFull(log[..n])
  {
    assert forall m :: 0 <= m < n ==> log[..n][..m] == log[..m];
  }

  lemma ProjectLast(log: Log, e: Event, k: Flow)
    requires !Foreign(e, k)
    ensures Replay(log + [e]) == Apply(Replay(log), e)
    ensures Verdicts(log + [e], k) ==
      if e.Packet? then Verdicts(log, k) + [VerdictOf(Replay(log), e.info)] else Verdicts(log, k)
  {
    assert (log + [e])[..|log|] == log;
  }

  /** Dropping everything foreign from a run changes nothing that flow `k` can see. */
  lemma {:induction false} ProjectionSeesTheSame(log: Log, k: Flow)
    requires NeverFull(log)
    ensures AgreeOn(Replay(log), Replay(Project(log, k)), k)
    ensures Replay(Project(log, k)).ct.Keys <= {k}
    ensures Verdicts(log, k) == Verdicts(Project(log, k), k)
    decreases |log|
  {
    if log != [] {
      var n := |log| - 1;
      var e, front := log[n], Project(log[..n], k);
      NeverFullPrefix(log, n);
      ProjectionSeesTheSame(log[..n], k);
      var a, b := Replay(log[..n]), Replay(front);
      if Foreign(e, k) {
        ForeignStep(a, e, k);
      } else {
        SubsetOfSingleton(b.ct.Keys, k);
        AgreeingStatesDecideAlike(a, b, e, k);
        ProjectLast(front, e, k);
      }
    }
  }

  /** Two runs with the same rule changes and the same packets and deletions of flow `k` give those
      packets the same verdicts and `k` the same entry, whatever else each run contains. */
  lemma FlowIsolation(log1: Log, log2: Log, k: Flow)
    requires NeverFull(log1) && NeverFull(log2)
    requires Project(log1, k) == Project(log2, k)
    ensures Verdicts(log1, k) == Verdicts(log2, k)
    ensures Entry(Replay(log1).ct, k) == Entry(Replay(log2).ct, k)
  {
    ProjectionSeesTheSame(log1, k);
    ProjectionSeesTheSame(log2, k);
  }
}
