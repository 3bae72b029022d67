/** The maps as objects in the kernel: the packet program and the daemon's single map operations.
    Every operation is preceded by arbitrary interference of the other side. */
module Kernel {
  import opened Wire
  import opened Policy
  import opened Datapath
  import opened Conntrack
  import opened Parser
  import opened Linearize
  import opened Decision

  /** What the daemon controls. */
  datatype Config = Config(ips: IpTable, ports: PortTable, flags: PresenceWord, policy: u32)

  datatype Counter = Total | Dropped | Passed

  /** What may happen between two steps of `me`: packets always; for the command holding Server.mu
      also the reaper, for the reaper also every step of a command. */
  predicate Interferes(me: Actor, e: Event) {
    e.Packet? || (e.DelCt? && e.actor == Reaper) == (me == Control)
  }

  predicate Touches(e: Event, k: Flow) {
    || (e.Packet? && e.info.Some? && FlowOf(e.info.value) == k)
    || (e.DelCt? && e.flow == k)
  }

  /** From `n` on nobody but `me` touched flow `k`. */
  ghost predicate Quiet(me: Actor, log: Log, n: nat, k: Flow) {
    forall i :: n <= i < |log| && Interferes(me, log[i]) ==> !Touches(log[i], k)
  }

  /** From `n` on nobody but `me` touched any flow. */
  ghost predicate AllQuiet(me: Actor, log: Log, n: nat) {
    forall k :: Quiet(me, log, n, k)
  }

  ghost predicate OthersOnly(me: Actor, log: Log, n: nat) {
    forall i :: n <= i < |log| ==> Interferes(me, log[i])
  }

  /** The rule changes of a run, in order. */
  ghost function RuleEvents(log: Log): Log {
    if log == [] then []
    else
      var rest, e := RuleEvents(log[..|log| - 1]), log[|log| - 1];
      if RuleEvent(e) then rest + [e] else rest
  }

  /** How many flows the reaper deleted. */
  ghost function Reaped(log: Log): nat {
    if log == [] then 0
    else
      var e := log[|log| - 1];
      Reaped(log[..|log| - 1]) + if e.DelCt? && e.actor == Reaper then 1 else 0
  }

  lemma HistoryAppend(log: Log, e: Event)
    ensures RuleEvent(e) ==> RuleEvents(log + [e]) == RuleEvents(log) + [e]
    ensures !RuleEvent(e) ==> RuleEvents(log + [e]) == RuleEvents(log)
    ensures Reaped(log + [e]) == Reaped(log) + if e.DelCt? && e.actor == Reaper then 1 else 0
  {
    assert (log + [e])[..|log|] == log;
  }

  /** How many rule changes the first `i` events make. */
  ghost function RuleCount(log: Log, i: nat): nat
    requires i <= |log|
  {
    |RuleEvents(log[..i])|
  }

  lemma RuleCountNext(log: Log, i: nat)
    requires i < |log|
    ensures RuleCount(log, i + 1) == RuleCount(log, i) + if RuleEvent(log[i]) then 1 else 0
  {
    assert log[..i + 1] == log[..i] + [log[i]];
    HistoryAppend(log[..i], log[i]);
  }

  lemma {:induction false} RulesExtend(log: Log, a: nat, b: nat)
    requires a <= b <= |log|
    ensures RuleEvents(log[..a]) <= RuleEvents(log[..b])
    decreases b
  {
    if a < b {
      RulesExtend(log, a, b - 1);
      assert log[..b] == log[..b - 1] + [log[b - 1]];
      HistoryAppend(log[..b - 1], log[b - 1]);
    }
  }

  predicate IsRemoval(e: Event) {
    e.DelIp? || e.DelPort?
  }

  /** The later history of rule changes adds nothing but removals. */
  predicate Removals(was: Log, now: Log) {
    was <= now && forall i :: |was| <= i < |now| ==> IsRemoval(now[i])
  }

  lemma RemovalAdded(was: Log, now: Log, e: Event)
    requires Removals(was, now) && IsRemoval(e)
    ensures Removals(was, now + [e])
  {
  }

  /** From `n` on, rules were only removed. */
  ghost predicate OnlyRemovals(log: Log, n: nat) {
    forall i :: n <= i < |log| && RuleEvent(log[i]) ==> IsRemoval(log[i])
  }

  lemma {:induction false} RemovalsInRun(log: Log, n: nat)
    requires n <= |log| && Removals(RuleEvents(log[..n]), RuleEvents(log))
    ensures OnlyRemovals(log, n)
    decreases |log|
  {
    if n < |log| {
      var front, e := log[..|log| - 1], log[|log| - 1];
      assert front[..n] == log[..n];
      RulesExtend(log, n, |log| - 1);
      assert front + [e] == log;
      HistoryAppend(front, e);
      LastIsRemoval(RuleEvents(log[..n]), RuleEvents(front), e);
      RemovalsInRun(front, n);
    }
  }

  lemma LastIsRemoval(was: Log, now: Log, e: Event)
    requires was <= now
    ensures Removals(was, now + [e]) ==> Removals(was, now) && IsRemoval(e)
  {
    if Removals(was, now + [e]) {
      assert (now + [e])[|now|] == e;
      assert forall i :: 0 <= i < |now| ==> (now + [e])[i] == now[i];
    }
  }

  lemma SecondRuleEventCounts(log: Log, m: nat, i: nat, j: nat)
    requires m <= i < j < |log| && RuleEvent(log[i]) && RuleEvent(log[j])
    ensures RuleCount(log, |log|) >= RuleCount(log, m) + 2
  {
    RulesExtend(log, m, i);
    RuleCountNext(log, i);
    RulesExtend(log, i + 1, j);
    RuleCountNext(log, j);
    RulesExtend(log, j + 1, |log|);
  }

  /** A packet whose reads are overlapped by a single command, which changes at most one rule, collects
      the rules it would have collected before or after that command. */
  lemma CommandLooksAtomic(log: Log, m: nat, r: Reads, p: PacketInfo)
    requires AllSafe(log) && InOrder(m, r, |log|)
    requires |RuleEvents(log)| <= |RuleEvents(log[..m])| + 1
    ensures
      || (SeenIp(log, r, p), SeenPort(log, r, p)) == (MatchedIp(At(log, m), p), MatchedPort(At(log, m), p))
      || (SeenIp(log, r, p), SeenPort(log, r, p)) == (MatchedIp(Replay(log), p), MatchedPort(Replay(log), p))
  {
    assert log[..|log|] == log;
    forall i, j | m <= i < j < |log| && Concerns(log[i], p) ensures !Concerns(log[j], p) {
      if RuleEvent(log[j]) { SecondRuleEventCounts(log, m, i, j); }
    }
    LookupsLinearize(log, m, r, p);
  }

  lemma QuietSplits(me: Actor, mid: Log, log: Log, n: nat)
    requires mid <= log && n <= |mid|
    ensures forall k :: Quiet(me, log, n, k) ==> Quiet(me, mid, n, k) && Quiet(me, log, |mid|, k)
  {
  }

  /** For flows touched by nobody but `me` since `n`: `gone` were removed and the others kept. */
  ghost predicate RemovedFrom(me: Actor, log: Log, n: nat, was: CtTable, ct: CtTable, gone: seq<Flow>) {
    forall k :: Quiet(me, log, n, k) ==> Entry(ct, k) == if k in gone then None else Entry(was, k)
  }

  lemma RemovedOneMore(me: Actor, mid: Log, log: Log, n: nat, was: CtTable, between: CtTable, ct: CtTable,
                       gone: seq<Flow>, more: seq<Flow>)
    requires mid <= log && n <= |mid|
    requires RemovedFrom(me, mid, n, was, between, gone)
    requires RemovedFrom(me, log, |mid|, between, ct, more)
    ensures RemovedFrom(me, log, n, was, ct, gone + more)
  {
    QuietSplits(me, mid, log, n);
  }

  /** These flows are gone and no new one has appeared. */
  ghost predicate Shrunk(was: CtTable, ct: CtTable, gone: seq<Flow>) {
    ct.Keys <= was.Keys && forall i :: 0 <= i < |gone| ==> gone[i] !in ct
  }

  lemma ShrunkFurther(was: CtTable, between: CtTable, ct: CtTable, gone: seq<Flow>, more: seq<Flow>)
    ensures Shrunk(was, between, gone) && Shrunk(between, ct, more) ==> Shrunk(was, ct, gone + more)
  {
  }

  /** From `n` on, `me` did nothing but delete some of these flows. */
  ghost predicate DeletesOnly(me: Actor, log: Log, n: nat, keys: seq<Flow>) {
    forall i :: n <= i < |log| && !Interferes(me, log[i]) ==> log[i].DelCt? && log[i].flow in keys
  }

  lemma DeletesExtend(me: Actor, mid: Log, log: Log, n: nat, keys: seq<Flow>, key: Flow)
    requires mid <= log && DeletesOnly(me, mid, n, keys) && key in keys
    requires DeletesOnly(me, log, |mid|, [key])
    ensures DeletesOnly(me, log, n, keys)
  {
  }

  /** Between the others' events, `me` deleted the first `n` of these flows and did nothing else. */
  ghost predicate Deleted(me: Actor, s: State, before: Log, t: State, log: Log, keys: seq<Flow>, n: nat) {
    && before <= log && n <= |keys|
    && (me == Control ==> ConfigOf(t) == ConfigOf(s) && RuleEvents(log) == RuleEvents(before))
    && (me == Control && s.ips == map[] && s.ports == map[] ==> Shrunk(s.ct, t.ct, keys[..n]))
    && (me == Reaper ==> Reaped(log) == Reaped(before) + n)
    && RemovedFrom(me, log, |before|, s.ct, t.ct, keys[..n])
    && DeletesOnly(me, log, |before|, keys)
  }

  /** After the first `n`, the next one is deleted too, or its deletion fails. */
  lemma DeletedNext(me: Actor, s: State, before: Log, t: State, mid: Log, u: State, log: Log,
                    keys: seq<Flow>, n: nat, ok: bool)
    requires n < |keys| && Deleted(me, s, before, t, mid, keys, n)
    requires Deleted(me, t, mid, u, log, [keys[n]], if ok then 1 else 0)
    ensures Deleted(me, s, before, u, log, keys, if ok then n + 1 else n)
  {
    var more := [keys[n]][..if ok then 1 else 0];
    RemovedOneMore(me, mid, log, |before|, s.ct, t.ct, u.ct, keys[..n], more);
    ShrunkFurther(s.ct, t.ct, u.ct, keys[..n], more);
    DeletesExtend(me, mid, log, |before|, keys, keys[n]);
    assert keys[..n] + more == keys[..if ok then n + 1 else n];
  }

  /** The others' steps, then the deletion unless it fails. */
  lemma DeletedOne(me: Actor, s: State, before: Log, t: State, mid: Log, key: Flow, ok: bool)
    requires Undisturbed(me, s, before, t, mid)
    ensures var e := DelCt(key, me);
      if ok then Deleted(me, s, before, Apply(t, e), mid + [e], [key], 1) else Deleted(me, s, before, t, mid, [key], 0)
  {
    assert [key][..1] == [key];
    if ok {
      HistoryAppend(mid, DelCt(key, me));
      QuietSplits(me, mid, mid + [DelCt(key, me)], |before|);
    }
  }

  function ConfigOf(s: State): Config {
    Config(s.ips, s.ports, s.flags, s.policy)
  }

  /** What the others' events between `before` and `log` leave to `me`: a command keeps its configuration,
      and without rules the flow table only shrinks; the reaper keeps its count; and flows that were not
      touched keep their entries. */
  ghost predicate Undisturbed(me: Actor, s: State, before: Log, t: State, log: Log) {
    && before <= log && OthersOnly(me, log, |before|)
    && (me == Control ==> ConfigOf(t) == ConfigOf(s) && RuleEvents(log) == RuleEvents(before))
    && (me == Control && s.ips == map[] && s.ports == map[] ==> t.ct.Keys <= s.ct.Keys)
    && (me == Reaper ==> Reaped(log) == Reaped(before))
    && QuietKept(me, log, |before|, s.ct, t.ct)
  }

  ghost predicate QuietKept(me: Actor, log: Log, n: nat, was: CtTable, ct: CtTable) {
    forall k :: Quiet(me, log, n, k) ==> Entry(ct, k) == Entry(was, k)
  }

  lemma StillUndisturbed(me: Actor, s: State, before: Log, t: State, mid: Log, u: State, log: Log)
    requires Undisturbed(me, s, before, t, mid) && Undisturbed(me, t, mid, u, log)
    ensures Undisturbed(me, s, before, u, log)
  {
    QuietSplits(me, mid, log, |before|);
  }

  lemma OthersKeepConfig(s: State, e: Event)
    requires Interferes(Control, e)
    ensures ConfigOf(Apply(s, e)) == ConfigOf(s)
    ensures s.ips == map[] && s.ports == map[] ==> Apply(s, e).ct.Keys <= s.ct.Keys
  {
    if s.ips == map[] && s.ports == map[] { NoRulesNoNewFlows(s, e); }
  }

  lemma OthersKeepQuiet(me: Actor, s: State, before: Log, e: Event)
    requires Interferes(me, e)
    ensures QuietKept(me, before + [e], |before|, s.ct, Apply(s, e).ct)
  {
    forall k | Quiet(me, before + [e], |before|, k) ensures Entry(Apply(s, e).ct, k) == Entry(s.ct, k) {
      assert (before + [e])[|before|] == e;
      UntouchedStep(s, e, k);
    }
  }

  lemma OthersKeepHistory(me: Actor, before: Log, e: Event)
    requires Interferes(me, e)
    ensures me == Control ==> RuleEvents(before + [e]) == RuleEvents(before)
    ensures me == Reaper ==> Reaped(before + [e]) == Reaped(before)
  {
    HistoryAppend(before, e);
  }

  lemma OthersDid(me: Actor, before: Log, e: Event)
    requires Interferes(me, e)
    ensures OthersOnly(me, before + [e], |before|)
  {
  }

  /** One step of the others. */
  lemma OthersStep(me: Actor, s: State, before: Log, e: Event)
    requires Interferes(me, e)
    ensures Undisturbed(me, s, before, Apply(s, e), before + [e])
  {
    var t, log := Apply(s, e), before + [e];
    OthersKeepHistory(me, before, e);
    OthersDid(me, before, e);
    OthersKeepQuiet(me, s, before, e);
    if me == Control { OthersKeepConfig(s, e); }
    UndisturbedBy(me, s, before, t, log);
  }

  lemma UndisturbedBy(me: Actor, s: State, before: Log, t: State, log: Log)
    requires before <= log && OthersOnly(me, log, |before|) && QuietKept(me, log, |before|, s.ct, t.ct)
    requires me == Control ==> ConfigOf(t) == ConfigOf(s) && RuleEvents(log) == RuleEvents(before)
    requires me == Control && s.ips == map[] && s.ports == map[] ==> t.ct.Keys <= s.ct.Keys
    requires me == Reaper ==> Reaped(log) == Reaped(before)
    ensures Undisturbed(me, s, before, t, log)
  {
  }

  lemma UntouchedStep(s: State, e: Event, k: Flow)
    requires !Touches(e, k)
    ensures Entry(Apply(s, e).ct, k) == Entry(s.ct, k)
  {
    if e.Packet? && e.info.Some? {
      assert Entry(CtUpdate(s.ct, e.info.value, e.now), k) == Entry(s.ct, k);
    }
  }

  lemma TallyIsWrapped(t: Tally, len: nat)
    ensures t == Wrap(t.packets, t.bytes) && Count(t, len) == Wrap(t.packets + 1, t.bytes + len)
  {
  }

  /** What the specification of a packet says without naming its own steps. */
  lemma PacketSpecifications(s: State, log: Log, info: Option<PacketInfo>, len: nat, now: u64)
    requires s == Replay(log) && AllSafe(log)
    ensures VerdictOf(s, info) == Pass <==> ShouldPass(s, info)
    ensures VerdictOf(s, info) == VerdictOf(AlwaysLookup(log), info)
    ensures FlowsFollow(s, info, VerdictOf(s, info), now, OnPacket(s, info, len, now).ct)
    ensures PresenceSafe(OnPacket(s, info, len, now))
  {
    SafePrefix(log, |log|);
    VerdictIsDeclarative(s, info);
    GatingRefinesAlwaysLookup(log, info);
    AcceptedIsRecorded(s, info, len, now);
  }

  lemma EventIsLogged(s: State, log: Log, e: Event)
    requires s == Replay(log) && AllSafe(log) && Masked(s.ips)
    requires PresenceSafe(Apply(s, e)) && (e.PutIp? ==> Normal(e.prefix))
    ensures Apply(s, e) == Replay(log + [e]) && AllSafe(log + [e]) && Masked(Apply(s, e).ips)
  {
    ReplayAppend(log, e);
  }

  function Found(matched: bool, best: Rule): Option<Rule> {
    if matched then Some(best) else None
  }

  /** TryLookup's maximum is what Better keeps. */
  lemma BetterIsMaximum(matched: bool, best: Rule, found: Option<Rule>, matched': bool, best': Rule)
    requires matched' <==> matched || found.Some?
    requires matched ==> best'.priority >= best.priority
    requires found.Some? ==> best'.priority >= found.value.priority
    requires (matched && best' == best) || (found.Some? && best' == found.value) || !matched'
    requires matched && best'.priority == best.priority ==> best' == best
    ensures Found(matched', best') == Better(Found(matched, best), found)
  {
  }

  lemma NowIsAt(log: Log)
    ensures At(log, |log|) == Replay(log)
  {
    assert log[..|log|] == log;
  }

  lemma RulesSeen(log: Log, r: Reads, p: PacketInfo, present: PresenceWord, ip: Option<Rule>, port: Option<Rule>)
    requires InOrder(0, r, |log|) && At(log, r.flags).flags == present
    requires ip == if Present(present, IP_PRESENT) then TornIp(At(log, r.src).ips, At(log, r.dst).ips, p) else None
    requires port == if !Present(present, PORT_PRESENT) then None else
      TornPort(At(log, r.exact).ports, At(log, r.dportOnly).ports, At(log, r.sportOnly).ports,
               At(log, r.neither).ports, p)
    ensures SeenIp(log, r, p) == ip && SeenPort(log, r, p) == port
  {
  }

  /** The collected rules are not changed by what comes later. */
  lemma RulesStay(past: Log, log: Log, was: Reads, r: Reads, p: PacketInfo)
    requires past <= log && InOrder(0, was, |past|) && InOrder(0, r, |log|)
    requires r == was.(policy := r.policy, ct := r.ct)
    ensures SeenIp(log, r, p) == SeenIp(past, was, p) && SeenPort(log, r, p) == SeenPort(past, was, p)
  {
    assert log[..|past|] == past;
    PrefixKeepsReads(log, |past|, was, p);
  }

  lemma FitsUnlessOvertaken(log: Log, m: nat, r: Reads, p: PacketInfo)
    requires AllSafe(log) && InOrder(m, r, |log|)
    ensures forall j :: OneCommand(log, m, j, p) ==>
      (Linearizable(log, m, p, TornVerdict(log, r, p)) <==> !Overtaken(log, j, r, p))
  {
    forall j | OneCommand(log, m, j, p)
      ensures Linearizable(log, m, p, TornVerdict(log, r, p)) <==> !Overtaken(log, j, r, p)
    {
      TornVerdictIsAtomic(log, m, j, r, p);
    }
  }

  /** What a run once was it stays. */
  lemma PastStays(past: Log, log: Log, i: nat)
    requires past <= log && i <= |past|
    ensures At(log, i) == At(past, i)
  {
    assert log[..i] == past[..i];
  }

  class Maps {
    var ips: IpTable
    var ports: PortTable
    var flags: PresenceWord
    var policy: u32
    var ct: CtTable
    var total: Tally
    var drop: Tally
    var pass: Tally
    ghost var log: Log
    ghost var faults: nat  // map operations that failed for reasons of their own

    constructor ()
      ensures Valid() && log == [] && View() == BOOT && faults == 0
    {
      ips, ports, flags, policy, ct := map[], map[], NONE_PRESENT, DEFAULT_ALLOW, map[];
      total, drop, pass := Tally(0, 0), Tally(0, 0), Tally(0, 0);
      log, faults := [], 0;
    }

    function View(): State
      reads this
    {
      State(ips, ports, flags, policy, ct, Stats(total, drop, pass))
    }

    ghost function Cfg(): Config
      reads this
    {
      Config(ips, ports, flags, policy)
    }

    /** The maps hold what the run so far left in them, at no point of it did the flag word hide a rule,
        and stored prefixes carry no host bits. */
    ghost predicate Valid()
      reads this
    {
      View() == Replay(log) && AllSafe(log) && Masked(ips)
    }

    // ----- the packet program ------------------------------------------------------

    method IpBlockAction(info: PacketInfo) returns (out: Option<Rule>)
      ensures IpCandidate(ips, info, out)
      ensures out == IpLookup(ips, info)
    {
      IpLookupIsCandidate(ips, info, IpLookup(ips, info));
      out := LpmLookup(ips, info.saddr);
      if out.None? {
        out := LpmLookup(ips, info.daddr);
      }
    }

    /** One TRY_LOOKUP: the best stays the maximum of what was probed so far, the earlier probe on a tie. */
    method TryLookup(key: PortKey, matched: bool, best: Rule) returns (matched': bool, best': Rule)
      ensures matched' <==> matched || key in ports
      ensures matched ==> best'.priority >= best.priority
      ensures key in ports ==> best'.priority >= ports[key].priority
      ensures (matched && best' == best) || (key in ports && best' == ports[key]) || !matched'
      ensures matched && best'.priority == best.priority ==> best' == best
    {
      matched', best' := matched, best;
      if key in ports && (!matched || ports[key].priority > best.priority) {
        best' := ports[key];
        matched' := true;
      }
    }

    method PortRuleAction(info: PacketInfo) returns (matched: bool, out: Rule)
      ensures (if matched then Some(out) else None) == PortLookup(ports, info)
      ensures matched <==> exists k :: k in ports && Matches(k, info)
      ensures matched ==> exists k :: IsWinner(ports, info, k) && ports[k] == out
    {
      matched, out := false, Rule(ACTION_PASS, 0);
      var key := PortKey(info.protocol, info.dport, info.sport, info.daddr);
      matched, out := TryLookup(key, matched, out);
      key := key.(dport := info.dport, sport := 0);
      matched, out := TryLookup(key, matched, out);
      key := key.(dport := 0, sport := info.sport);
      matched, out := TryLookup(key, matched, out);
      key := key.(dport := 0, sport := 0);
      matched, out := TryLookup(key, matched, out);
      PortLookupIsWinner(ports, info);
    }

    method UpdateFlow(info: PacketInfo, now: u64)
      modifies `ct
      ensures ct == CtUpdate(old(ct), info, now)
    {
      var key := FlowOf(info);
      if key in ct {
        var v := ct[key].(lastSeen := now);
        if info.flags.fin || info.flags.rst {
          v := v.(state := Closed);
        } else if v.state == New && info.flags.ack {
          v := v.(state := Established);
        }
        ct := ct[key := v];
        return;
      }
      var state := if info.flags.fin || info.flags.rst then Closed else if info.flags.syn then New else Established;
      if |ct| < MAX_FLOWS {
        ct := ct[key := CtEntry(now, state)];
      }
    }

    function Slot(idx: Counter): Tally
      reads this
    {
      match idx
      case Total => total
      case Dropped => drop
      case Passed => pass
    }

    /** A slot that counts some packets and bytes modulo 2^64 then counts one packet of `bytes` more. */
    method IncrCounter(idx: Counter, bytes: nat)
      modifies `total, `drop, `pass
      ensures forall n: nat, b: nat :: old(Slot(idx)) == Wrap(n, b) ==> Slot(idx) == Wrap(n + 1, b + bytes)
      ensures idx == Total || total == old(total)
      ensures idx == Dropped || drop == old(drop)
      ensures idx == Passed || pass == old(pass)
    {
      forall n: nat, b: nat | Slot(idx) == Wrap(n, b) ensures Count(Slot(idx), bytes) == Wrap(n + 1, b + bytes) {
        CountWraps(n, b, bytes);
      }
      match idx
      case Total => total := Count(total, bytes);
      case Dropped => drop := Count(drop, bytes);
      case Passed => pass := Count(pass, bytes);
    }

    /** The whole packet program, atomic against everything else. */
    method FirewallProg(data: seq<u8>, now: u64) returns (verdict: Verdict)
      requires Valid()
      modifies this
      ensures Valid() && log == old(log) + [Packet(Parse(data), |data|, now)]
      ensures View() == OnPacket(old(View()), Parse(data), |data|, now)
      ensures verdict == VerdictOf(old(View()), Parse(data))
      ensures verdict == Pass <==> ShouldPass(old(View()), Parse(data))
      ensures verdict == VerdictOf(AlwaysLookup(old(log)), Parse(data))
      ensures FlowsFollow(old(View()), Parse(data), verdict, now, ct)
      ensures faults == old(faults)
    {
      ghost var s, e := View(), Packet(Parse(data), |data|, now);
      PacketSpecifications(s, log, Parse(data), |data|, now);
      verdict := RunFrame(data, now);
      EventIsLogged(s, log, e);
      log := log + [e];
    }

    /** Parsing, then the rest of the program. */
    method RunFrame(data: seq<u8>, now: u64) returns (verdict: Verdict)
      modifies `ct, `total, `drop, `pass
      ensures View() == OnPacket(old(View()), Parse(data), |data|, now)
      ensures verdict == VerdictOf(old(View()), Parse(data))
    {
      var nh := new HdrCursor();
      var ok, info := ParsePacket(nh, data);
      verdict := RunDatapath(ok, info, |data|, now);
    }

    /** Steps 2 and 3 of firewall_prog: gated lookups, then the decision. */
    method DecidePacket(info: PacketInfo) returns (verdict: Verdict)
      ensures verdict == VerdictOf(View(), Some(info))
    {
      var ipRule: Option<Rule>, portMatched, portRule := None, false, Rule(ACTION_PASS, 0);
      if Present(flags, IP_PRESENT) {
        ipRule := IpBlockAction(info);
      }
      if Present(flags, PORT_PRESENT) {
        portMatched, portRule := PortRuleAction(info);
      }
      if ipRule.Some? || portMatched {
        verdict := Decide(ipRule, if portMatched then Some(portRule) else None, policy);
      } else if policy == DEFAULT_DENY && info.protocol == PROTO_TCP && CtIsEstablished(ct, info) {
        verdict := Pass;
      } else {
        verdict := if policy == DEFAULT_DENY then Drop else Pass;
      }
    }

    /** firewall_prog after parsing. */
    method RunDatapath(ok: bool, info: PacketInfo, len: nat, now: u64) returns (verdict: Verdict)
      modifies `ct, `total, `drop, `pass
      ensures var input := if ok then Some(info) else None;
        && View() == OnPacket(old(View()), input, len, now)
        && verdict == VerdictOf(old(View()), input)
        && FlowsFollow(old(View()), input, verdict, now, ct)
    {
      AcceptedIsRecorded(View(), if ok then Some(info) else None, len, now);
      TallyIsWrapped(total, len);
      TallyIsWrapped(drop, len);
      TallyIsWrapped(pass, len);
      if !ok {
        verdict := if policy == DEFAULT_DENY then Drop else Pass;
        IncrCounter(Total, len);
        assert total == Count(old(total), len);
        if verdict == Drop {
          IncrCounter(Dropped, len);
        } else {
          IncrCounter(Passed, len);
        }
        return;
      }
      verdict := DecidePacket(info);
      if verdict == Drop {
        IncrCounter(Total, len);
        IncrCounter(Dropped, len);
        return;
      }
      if policy == DEFAULT_DENY && info.protocol == PROTO_TCP {
        UpdateFlow(info, now);
      }
      IncrCounter(Total, len);
      IncrCounter(Passed, len);
    }

    // ----- single map operations --------------------------------------------------------

    /** One atomic map write. Rules may only be added where the flag word already shows them. */
    method Perform(e: Event)
      requires Valid() && !e.Packet? && PresenceSafe(Apply(View(), e)) && (e.PutIp? ==> Normal(e.prefix))
      modifies this
      ensures Valid() && log == old(log) + [e]
      ensures View() == Apply(old(View()), e) && faults == old(faults)
    {
      EventIsLogged(View(), log, e);
      match e {
        case PutIp(k, r) => ips := ips[k := r];
        case DelIp(k) => ips := ips - {k};
        case PutPort(k, r) => ports := ports[k := r];
        case DelPort(k) => ports := ports - {k};
        case PutFlags(f) => flags := f;
        case PutPolicy(d) => policy := d;
        case DelCt(k, _) => ct := ct - {k};
      }
      log := log + [e];
    }

    /** Any number of packets and of the other actor's steps. */
    method Interfere(me: Actor)
      requires Valid()
      modifies this
      ensures Valid() && Undisturbed(me, old(View()), old(log), View(), log) && faults == old(faults)
    {
      var rounds: nat := *;
      while rounds > 0
        invariant Valid() && Undisturbed(me, old(View()), old(log), View(), log) && faults == old(faults)
      {
        ghost var s, mid := View(), log;
        OneStepOfOthers(me);
        StillUndisturbed(me, old(View()), old(log), s, mid, View(), log);
        rounds := rounds - 1;
      }
    }

    method OneStepOfOthers(me: Actor)
      requires Valid()
      modifies this
      ensures Valid() && Undisturbed(me, old(View()), old(log), View(), log) && faults == old(faults)
    {
      ghost var s, before := View(), log;
      var e: Event := *;
      if e.Packet? {
        var frame: seq<u8>, now: u64 := *, *;
        var verdict := FirewallProg(frame, now);
        OthersStep(me, s, before, Packet(Parse(frame), |frame|, now));
      } else if Interferes(me, e) && PresenceSafe(Apply(View(), e)) && (e.PutIp? ==> Normal(e.prefix)) {
        Perform(e);
        OthersStep(me, s, before, e);
      }
    }

    // ----- the packet program, one map read at a time ------------------------------------

    /** Whatever happens on the other CPUs and in the daemon between two reads of one packet. */
    method Others()
      requires Valid()
      modifies this
      ensures Valid() && old(log) <= log
    {
      var rounds: nat := *;
      while rounds > 0
        invariant Valid() && old(log) <= log
      {
        var me: Actor := *;
        Interfere(me);
        rounds := rounds - 1;
      }
    }

    /** ip_block_action. */
    method ReadIp(info: PacketInfo, present: bool) returns (out: Option<Rule>, ghost src: nat, ghost dst: nat)
      requires Valid()
      modifies this
      ensures Valid() && old(log) <= log && |old(log)| <= src <= dst <= |log|
      ensures out == if present then TornIp(At(log, src).ips, At(log, dst).ips, info) else None
    {
      src, dst, out := |log|, |log|, None;
      if !present { return; }
      Others();
      src, dst := |log|, |log|;
      ghost var seen := log;
      NowIsAt(log);
      out := LpmLookup(ips, info.saddr);
      if out.Some? { return; }
      Others();
      PastStays(seen, log, src);
      dst := |log|;
      NowIsAt(log);
      out := LpmLookup(ips, info.daddr);
    }

    /** One TRY_LOOKUP of a packet whose table may change meanwhile. */
    method ReadPort(key: PortKey, matched: bool, best: Rule)
      returns (matched': bool, best': Rule, ghost at: nat)
      requires Valid()
      modifies this
      ensures Valid() && old(log) <= log && at == |log|
      ensures Found(matched', best') == Better(Found(matched, best), Stored(At(log, at).ports, key))
    {
      Others();
      at := |log|;
      NowIsAt(log);
      matched', best' := TryLookup(key, matched, best);
      BetterIsMaximum(matched, best, Stored(ports, key), matched', best');
    }

    /** port_rule_action. */
    method ReadPorts(info: PacketInfo, present: bool)
      returns (matched: bool, best: Rule, ghost a: nat, ghost b: nat, ghost c: nat, ghost d: nat)
      requires Valid()
      modifies this
      ensures Valid() && old(log) <= log && |old(log)| <= a <= b <= c <= d <= |log|
      ensures Found(matched, best) ==
        if present then TornPort(At(log, a).ports, At(log, b).ports, At(log, c).ports, At(log, d).ports, info) else None
    {
      matched, best := false, Rule(ACTION_PASS, 0);
      a, b, c, d := |log|, |log|, |log|, |log|;
      if !present { return; }
      matched, best, a := ReadPort(PortKey(info.protocol, info.dport, info.sport, info.daddr), matched, best);
      ghost var l1 := log;
      matched, best, b := ReadPort(PortKey(info.protocol, info.dport, 0, info.daddr), matched, best);
      ghost var l2 := log;
      matched, best, c := ReadPort(PortKey(info.protocol, 0, info.sport, info.daddr), matched, best);
      ghost var l3 := log;
      matched, best, d := ReadPort(PortKey(info.protocol, 0, 0, info.daddr), matched, best);
      PastStays(l1, log, a);
      PastStays(l2, log, b);
      PastStays(l3, log, c);
    }

    /** Step 2 of firewall_prog: the flag word and the lookups it asks for. */
    method CollectRules(info: PacketInfo) returns (ip: Option<Rule>, matched: bool, best: Rule, ghost r: Reads)
      requires Valid()
      modifies this
      ensures Valid() && old(log) <= log && InOrder(|old(log)|, r, |log|)
      ensures ip == SeenIp(log, r, info) && Found(matched, best) == SeenPort(log, r, info)
    {
      ghost var src, dst, a, b, c, d;
      Others();
      var present := flags;
      ghost var f, l0 := |log|, log;
      NowIsAt(log);
      ip, src, dst := ReadIp(info, Present(present, IP_PRESENT));
      ghost var l1 := log;
      matched, best, a, b, c, d := ReadPorts(info, Present(present, PORT_PRESENT));
      r := Reads(f, src, dst, a, b, c, d, |log|, |log|);
      PastStays(l0, log, f);
      PastStays(l1, log, src);
      PastStays(l1, log, dst);
      RulesSeen(log, r, info, present, ip, Found(matched, best));
    }

    /** firewall_prog's decision on a parsed packet while everything else goes on. It is TornVerdict at the
        moments of its own reads, and so that of an atomic packet exactly unless it was overtaken. */
    method SteppedVerdict(info: PacketInfo) returns (verdict: Verdict, ghost r: Reads)
      requires Valid()
      modifies this
      ensures Valid() && old(log) <= log && InOrder(|old(log)|, r, |log|)
      ensures verdict == TornVerdict(log, r, info)
      ensures forall j :: OneCommand(log, |old(log)|, j, info) ==>
        (Linearizable(log, |old(log)|, info, verdict) <==> !Overtaken(log, j, r, info))
    {
      var ip, matched, best;
      ip, matched, best, r := CollectRules(info);
      ghost var l1, r1 := log, r;
      Others();
      ghost var l2 := log;
      NowIsAt(log);
      var def, established := policy, false;
      r := r.(policy := |log|, ct := |log|);
      if ip.Some? || matched {
        verdict := Decide(ip, Found(matched, best), def);
      } else if def == DEFAULT_DENY && info.protocol == PROTO_TCP {
        Others();
        r := r.(ct := |log|);
        NowIsAt(log);
        established := CtIsEstablished(ct, info);
        verdict := if established then Pass else Drop;
      } else {
        verdict := if def == DEFAULT_DENY then Drop else Pass;
      }
      PastStays(l2, log, r.policy);
      RulesStay(l1, log, r1, r, info);
      FitsUnlessOvertaken(log, |old(log)|, r, info);
    }

    // ----- the daemon's steps, each after interference and each able to fail --------------

    /** The system call behind a step; a failure of its own is counted as a fault. */
    method Call() returns (ok: bool)
      modifies `faults
      ensures faults == old(faults) + if ok then 0 else 1
    {
      ok := *;
      if !ok { faults := faults + 1; }
    }

    method LookupFlags() returns (ok: bool, value: PresenceWord)
      requires Valid()
      modifies this
      ensures Valid() && old(log) <= log
      ensures Cfg() == old(Cfg()) && RuleEvents(log) == RuleEvents(old(log))
      ensures value == flags
      ensures faults >= old(faults) && (!ok ==> faults > old(faults))
    {
      Interfere(Control);
      ok := Call();
      value := flags;
    }

    method StoreFlags(value: PresenceWord) returns (ok: bool)
      requires Valid() && PresenceSafe(View().(flags := value))
      modifies this
      ensures Valid() && old(log) <= log
      ensures Cfg() == old(Cfg()).(flags := if ok then value else old(flags))
      ensures RuleEvents(log) == RuleEvents(old(log))
      ensures faults >= old(faults) && (!ok ==> faults > old(faults))
    {
      Interfere(Control);
      ok := Call();
      if ok {
        HistoryAppend(log, PutFlags(value));
        Perform(PutFlags(value));
      }
    }

    method StorePolicy(value: u32) returns (ok: bool)
      requires Valid()
      modifies this
      ensures Valid() && old(log) <= log
      ensures Cfg() == old(Cfg()).(policy := if ok then value else old(policy))
      ensures RuleEvents(log) == RuleEvents(old(log))
      ensures faults >= old(faults) && (!ok ==> faults > old(faults))
    {
      Interfere(Control);
      ok := Call();
      if ok {
        assert log[..|log|] == log;
        HistoryAppend(log, PutPolicy(value));
        Perform(PutPolicy(value));
      }
    }

    method StoreIp(key: LpmKey, rule: Rule) returns (ok: bool)
      requires Valid() && Present(flags, IP_PRESENT) && Normal(key)
      modifies this
      ensures Valid() && old(log) <= log
      ensures Cfg() == old(Cfg()).(ips := if ok then old(ips)[key := rule] else old(ips))
      ensures RuleEvents(log) == RuleEvents(old(log)) + if ok then [PutIp(key, rule)] else []
      ensures key !in old(ips) && |old(ips)| >= MAX_RULES ==> !ok
      ensures faults >= old(faults)
      ensures !ok ==> faults > old(faults) || (key !in old(ips) && |old(ips)| >= MAX_RULES)
    {
      Interfere(Control);
      ok := Call();
      if key !in ips && |ips| >= MAX_RULES { ok := false; }
      if ok {
        assert log[..|log|] == log;
        HistoryAppend(log, PutIp(key, rule));
        Perform(PutIp(key, rule));
      }
    }

    method DeleteIp(key: LpmKey) returns (ok: bool)
      requires Valid()
      modifies this
      ensures Valid() && old(log) <= log
      ensures Cfg() == old(Cfg()).(ips := if ok then old(ips) - {key} else old(ips))
      ensures RuleEvents(log) == RuleEvents(old(log)) + if ok then [DelIp(key)] else []
      ensures ok ==> key in old(ips)
      ensures faults >= old(faults) && (!ok ==> faults > old(faults) || key !in old(ips))
    {
      Interfere(Control);
      ok := Call();
      ok := ok && key in ips;
      if ok {
        assert log[..|log|] == log;
        HistoryAppend(log, DelIp(key));
        Perform(DelIp(key));
      }
    }

    /** iter.Next over blocked_ips: some entry not yielded before; ends only when none is left. */
    method NextIp(visited: set<LpmKey>) returns (ok: bool, key: Option<LpmKey>)
      requires Valid()
      modifies this
      ensures Valid() && old(log) <= log
      ensures Cfg() == old(Cfg()) && RuleEvents(log) == RuleEvents(old(log))
      ensures ok && key.None? ==> ips.Keys <= visited
      ensures key.Some? ==> ok && key.value in ips && key.value !in visited
      ensures faults >= old(faults) && (!ok ==> faults > old(faults))
    {
      Interfere(Control);
      ok := Call();
      key := None;
      if ok && !(ips.Keys <= visited) {
        var k :| k in ips.Keys && k !in visited;
        key := Some(k);
      }
    }

    method StorePort(key: PortKey, rule: Rule) returns (ok: bool)
      requires Valid() && Present(flags, PORT_PRESENT)
      modifies this
      ensures Valid() && old(log) <= log
      ensures Cfg() == old(Cfg()).(ports := if ok then old(ports)[key := rule] else old(ports))
      ensures RuleEvents(log) == RuleEvents(old(log)) + if ok then [PutPort(key, rule)] else []
      ensures key !in old(ports) && |old(ports)| >= MAX_RULES ==> !ok
      ensures faults >= old(faults)
      ensures !ok ==> faults > old(faults) || (key !in old(ports) && |old(ports)| >= MAX_RULES)
    {
      Interfere(Control);
      ok := Call();
      if key !in ports && |ports| >= MAX_RULES { ok := false; }
      if ok {
        assert log[..|log|] == log;
        HistoryAppend(log, PutPort(key, rule));
        Perform(PutPort(key, rule));
      }
    }

    method DeletePort(key: PortKey) returns (ok: bool)
      requires Valid()
      modifies this
      ensures Valid() && old(log) <= log
      ensures Cfg() == old(Cfg()).(ports := if ok then old(ports) - {key} else old(ports))
      ensures RuleEvents(log) == RuleEvents(old(log)) + if ok then [DelPort(key)] else []
      ensures ok ==> key in old(ports)
      ensures faults >= old(faults) && (!ok ==> faults > old(faults) || key !in old(ports))
    {
      Interfere(Control);
      ok := Call();
      ok := ok && key in ports;
      if ok {
        assert log[..|log|] == log;
        HistoryAppend(log, DelPort(key));
        Perform(DelPort(key));
      }
    }

    method NextPort(visited: set<PortKey>) returns (ok: bool, key: Option<PortKey>)
      requires Valid()
      modifies this
      ensures Valid() && old(log) <= log
      ensures Cfg() == old(Cfg()) && RuleEvents(log) == RuleEvents(old(log))
      ensures ok && key.None? ==> ports.Keys <= visited
      ensures key.Some? ==> ok && key.value in ports && key.value !in visited
      ensures faults >= old(faults) && (!ok ==> faults > old(faults))
    {
      Interfere(Control);
      ok := Call();
      key := None;
      if ok && !(ports.Keys <= visited) {
        var k :| k in ports.Keys && k !in visited;
        key := Some(k);
      }
    }

    /** iter.Next over conntrack. The table may grow under the iterator, which gives up with an
        error rather than yield more entries than the table can hold. */
    method NextFlow(me: Actor, visited: set<Flow>) returns (ok: bool, key: Option<Flow>, value: CtEntry)
      requires Valid()
      modifies this
      ensures Valid() && Undisturbed(me, old(View()), old(log), View(), log)
      ensures ok && key.None? ==> ct.Keys <= visited
      ensures key.Some? ==> ok && Entry(ct, key.value) == Some(value) && key.value !in visited && |visited| < MAX_FLOWS
      ensures faults >= old(faults)
      ensures !ok ==> faults > old(faults) || (|visited| >= MAX_FLOWS && !(ct.Keys <= visited))
    {
      Interfere(me);
      ok := Call();
      key, value := None, CtEntry(0, New);
      if ok && !(ct.Keys <= visited) {
        ok := |visited| < MAX_FLOWS;
        if ok {
          var k :| k in ct.Keys && k !in visited;
          key, value := Some(k), ct[k];
        }
      }
    }

    method DeleteFlow(me: Actor, key: Flow) returns (ok: bool)
      requires Valid()
      modifies this
      ensures Valid()
      ensures Deleted(me, old(View()), old(log), View(), log, [key], if ok then 1 else 0)
      ensures faults >= old(faults) && (!ok ==> faults > old(faults) || key !in ct)
    {
      Interfere(me);
      ok := Call();
      ok := ok && key in ct;
      DeletedOne(me, old(View()), old(log), View(), log, key, ok);
      if ok {
        assert log[..|log|] == log;
        Perform(DelCt(key, me));
      }
    }
  }
}
